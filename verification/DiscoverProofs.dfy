// What the discovery procedure promises: priority, no repeated request, an honest
// report, and which requests can be other than https.

module DiscoverProofs {
  import opened Basics
  import opened Discover

  // ---------------------------------------------------------------- the plan

  /** The candidate at `p` has a key that is neither in `seen` nor that of an earlier candidate. */
  predicate IsNew(seen: set<Url>, cs: seq<Candidate>, p: int) {
    && 0 <= p < |cs| && RequestKey(cs[p].url) !in seen
    && forall q :: 0 <= q < p ==> RequestKey(cs[q].url) != RequestKey(cs[p].url)
  }

  predicate Lists(at: seq<int>, p: int) { exists i :: 0 <= i < |at| && at[i] == p }

  predicate Increases(at: seq<int>) { forall i, j :: 0 <= i < j < |at| ==> at[i] < at[j] }

  /** `at` lists the positions of the new candidates of `cs`, in order. */
  ghost predicate Selects(seen: set<Url>, cs: seq<Candidate>, at: seq<int>) {
    && (forall i :: 0 <= i < |at| ==> IsNew(seen, cs, at[i]))
    && Increases(at)
    && (forall p :: IsNew(seen, cs, p) ==> Lists(at, p))
  }

  function Shift(at: seq<int>): (r: seq<int>)
    ensures |r| == |at| && forall i :: 0 <= i < |at| ==> r[i] == at[i] + 1
  {
    seq(|at|, i requires 0 <= i < |at| => at[i] + 1)
  }

  lemma NewStep(seen: set<Url>, cs: seq<Candidate>, p: int)
    requires cs != []
    ensures var key := RequestKey(cs[0].url);
            if key in seen then IsNew(seen, cs, p) <==> IsNew(seen, cs[1..], p - 1)
            else IsNew(seen, cs, p) <==> p == 0 || IsNew(seen + {key}, cs[1..], p - 1)
  {
    hide RequestKey;
    if 0 < p < |cs| {
      assert cs[p] == cs[1..][p - 1];
      forall q | 0 <= q < p - 1 ensures cs[1..][q] == cs[q + 1] {
      }
      forall q | 0 < q < p ensures cs[q] == cs[1..][q - 1] {
      }
    }
  }

  /** Deduplication keeps exactly the first candidate for every new key, in order. */
  lemma {:induction false} UnseenExact(seen: set<Url>, cs: seq<Candidate>) returns (at: seq<int>)
    ensures Selects(seen, cs, at) && forall i :: 0 <= i < |at| ==> IsNew(seen, cs, at[i])
    ensures |Unseen(seen, cs)| == |at|
    ensures forall i :: 0 <= i < |at| ==> 0 <= at[i] < |cs| && Unseen(seen, cs)[i] == cs[at[i]]
    decreases cs
  {
    hide RequestKey, IsNew, Selects;
    if cs == [] {
      at := [];
      NothingNew(seen);
    } else {
      var key := RequestKey(cs[0].url);
      var rest := UnseenExact(if key in seen then seen else seen + {key}, cs[1..]);
      at := if key in seen then Shift(rest) else [0] + Shift(rest);
      SelectsStep(seen, cs, rest);
    }
    SelectsNew(seen, cs, at);
  }

  lemma SelectsNew(seen: set<Url>, cs: seq<Candidate>, at: seq<int>)
    requires Selects(seen, cs, at)
    ensures forall i :: 0 <= i < |at| ==> IsNew(seen, cs, at[i])
  {
  }

  lemma SelectsStep(seen: set<Url>, cs: seq<Candidate>, rest: seq<int>)
    requires cs != []
    requires Selects(if RequestKey(cs[0].url) in seen then seen else seen + {RequestKey(cs[0].url)}, cs[1..], rest)
    ensures Selects(seen, cs, if RequestKey(cs[0].url) in seen then Shift(rest) else [0] + Shift(rest))
  {
    hide RequestKey, IsNew, Selects;
    var key := RequestKey(cs[0].url);
    forall p
      ensures key in seen ==> (IsNew(seen, cs, p) <==> IsNew(seen, cs[1..], p - 1))
      ensures key !in seen ==> (IsNew(seen, cs, p) <==> p == 0 || IsNew(seen + {key}, cs[1..], p - 1))
    {
      NewStep(seen, cs, p);
    }
    if key in seen {
      SelectsLater(seen, cs, seen, cs[1..], rest);
    } else {
      SelectsFirst(seen, cs, seen + {key}, cs[1..], rest);
    }
  }

  lemma SelectsLater(seen: set<Url>, cs: seq<Candidate>, next: set<Url>, tail: seq<Candidate>, rest: seq<int>)
    requires Selects(next, tail, rest) && forall p :: IsNew(seen, cs, p) <==> IsNew(next, tail, p - 1)
    ensures Selects(seen, cs, Shift(rest))
  {
    hide IsNew;
    var at := Shift(rest);
    forall i | 0 <= i < |at| ensures IsNew(seen, cs, at[i]) {
      assert at[i] - 1 == rest[i];
    }
    forall p | IsNew(seen, cs, p) ensures Lists(at, p) {
      ShiftLists(rest, p - 1);
    }
    hide Lists;
  }

  lemma ShiftLists(rest: seq<int>, p: int)
    requires Lists(rest, p)
    ensures Lists(Shift(rest), p + 1) && Lists([0] + Shift(rest), p + 1)
  {
    var i :| 0 <= i < |rest| && rest[i] == p;
    assert Shift(rest)[i] == p + 1 && ([0] + Shift(rest))[i + 1] == p + 1;
  }

  lemma SelectsFirst(seen: set<Url>, cs: seq<Candidate>, next: set<Url>, tail: seq<Candidate>, rest: seq<int>)
    requires Selects(next, tail, rest) && forall p :: IsNew(seen, cs, p) <==> p == 0 || IsNew(next, tail, p - 1)
    ensures Selects(seen, cs, [0] + Shift(rest))
  {
    hide IsNew;
    var at := [0] + Shift(rest);
    forall i | 0 <= i < |rest| ensures rest[i] >= 0 {
      NotNegative(next, tail, rest[i]);
    }
    FirstIncreases(rest);
    forall i | 0 <= i < |at| ensures IsNew(seen, cs, at[i]) {
      assert at[i] == if i == 0 then 0 else rest[i - 1] + 1;
    }
    forall p | IsNew(seen, cs, p) ensures Lists(at, p) {
      if p == 0 {
        assert at[0] == 0;
      } else {
        ShiftLists(rest, p - 1);
      }
    }
    hide Lists, Increases, Shift;
  }

  lemma FirstIncreases(rest: seq<int>)
    requires Increases(rest) && forall i :: 0 <= i < |rest| ==> rest[i] >= 0
    ensures Increases([0] + Shift(rest))
  {
  }

  lemma NotNegative(seen: set<Url>, cs: seq<Candidate>, p: int)
    ensures IsNew(seen, cs, p) ==> p >= 0
  {
  }

  lemma NothingNew(seen: set<Url>)
    ensures Selects(seen, [], [])
  {
  }

  predicate SameButFragment(a: Url, b: Url) { a.scheme == b.scheme && a.host == b.host && a.resource == b.resource }

  lemma KeyExact(a: Url, b: Url)
    ensures RequestKey(a) == RequestKey(b) <==> SameButFragment(a, b)
  {
  }

  predicate DistinctKeys(urls: seq<Url>) {
    forall i, j :: 0 <= i < j < |urls| ==> !SameButFragment(urls[i], urls[j])
  }

  lemma UnseenDistinct(seen: set<Url>, cs: seq<Candidate>)
    ensures DistinctKeys(UrlsOf(Unseen(seen, cs)))
    ensures forall i :: 0 <= i < |Unseen(seen, cs)| ==> RequestKey(Unseen(seen, cs)[i].url) !in seen
  {
    var at := UnseenExact(seen, cs);
    var r := Unseen(seen, cs);
    hide Unseen, RequestKey, UrlsOf;
    forall i, j | 0 <= i < j < |r| ensures !SameButFragment(r[i].url, r[j].url) {
      assert IsNew(seen, cs, at[i]) && IsNew(seen, cs, at[j]);
      KeyExact(r[i].url, r[j].url);
    }
    hide SameButFragment;
    forall i | 0 <= i < |r| ensures RequestKey(r[i].url) !in seen {
      assert IsNew(seen, cs, at[i]);
    }
  }

  lemma PlanDistinct(web: Web, start: Url)
    ensures DistinctKeys(UrlsOf(Plan(web, start)))
  {
    var seen, queue := {RequestKey(start)}, Queue(web, start);
    UnseenDistinct(seen, queue);
    var rest := Unseen(seen, queue);
    assert Plan(web, start) == [Candidate(start, Direct)] + rest;
    hide Unseen, RequestKey, Queue, Plan;
    var urls := UrlsOf(Plan(web, start));
    forall i | 0 < i < |urls| ensures urls[i] == UrlsOf(rest)[i - 1] == rest[i - 1].url && !SameButFragment(start, urls[i]) {
      KeyExact(start, urls[i]);
    }
    hide SameButFragment;
  }

  /** No URL is requested twice, whatever its fragment. */
  lemma RequestedOnce(web: Web, start: Url)
    ensures DistinctKeys(Requests(web, start))
  {
    PlanDistinct(web, start);
    var plan := Plan(web, start);
    var k := FirstCatalog(web, plan);
    hide Plan, RequestKey, FirstCatalog;
    assert forall i :: 0 <= i < |Requests(web, start)| ==> Requests(web, start)[i] == UrlsOf(plan)[i];
  }

  // ---------------------------------------------------------------- the report

  lemma {:induction false} RefusedAndKept(cs: seq<Candidate>)
    ensures |Refused(cs)| + |Https(cs)| == |cs|
  {
    if cs != [] {
      RefusedAndKept(cs[1..]);
    }
  }

  /** Nothing is found exactly when nothing planned is a catalog; then everything planned was
      requested, and every request and every link that is not https is reported. */
  lemma {:induction false} NothingFound(web: Web, start: Url)
    ensures Outcome(web, start).NotFound? <==> forall i :: 0 <= i < |Plan(web, start)| ==> !IsCatalog(web, Plan(web, start)[i])
    ensures Outcome(web, start).NotFound? ==>
              && Requests(web, start) == UrlsOf(Plan(web, start))
              && |Outcome(web, start).attempts| ==
                 |Requests(web, start)| + (|Links(web, start)| - |Https(Links(web, start))|)
  {
    RefusedAndKept(Links(web, start));
    assert |Plan(web, start)| > 0;
    hide Plan, IsCatalog, Links, Https, Refused, Failure, DiscoveryOf;
    var k := FirstCatalog(web, Plan(web, start));
    hide FirstCatalog;
  }

  /** What is found is the first catalog in the order direct, Link header, HTML link, well-known. */
  lemma FirstIsFound(web: Web, start: Url, k: nat)
    requires k < |Plan(web, start)| && IsCatalog(web, Plan(web, start)[k])
    requires forall i :: 0 <= i < k ==> !IsCatalog(web, Plan(web, start)[i])
    ensures Outcome(web, start) == Found(DiscoveryOf(web, Plan(web, start)[k]))
    ensures Requests(web, start) == UrlsOf(Plan(web, start)[..k + 1])
  {
    hide Plan, IsCatalog, DiscoveryOf, UrlsOf;
    var plan := Plan(web, start);
    var first := FirstCatalog(web, plan);
    hide FirstCatalog;
  }

  function Rank(means: Means): nat {
    match means
    case Direct => 0
    case LinkHeader => 1
    case HtmlLink => 2
    case WellKnown => 3
  }

  predicate ByPriority(cs: seq<Candidate>) {
    forall i, j :: 0 <= i < j < |cs| ==> Rank(cs[i].means) <= Rank(cs[j].means)
  }

  lemma {:induction false} HttpsAre(cs: seq<Candidate>)
    ensures forall c :: c in Https(cs) ==> c in cs && c.url.scheme == "https"
  {
    if cs != [] {
      HttpsAre(cs[1..]);
    }
  }

  lemma {:induction false} HttpsPriority(cs: seq<Candidate>)
    requires ByPriority(cs)
    ensures ByPriority(Https(cs))
    ensures forall c :: c in Https(cs) ==> c in cs && c.url.scheme == "https"
  {
    HttpsAre(cs);
    if cs != [] {
      PriorityTail(cs);
      HttpsPriority(cs[1..]);
      HttpsAre(cs[1..]);
      hide ByPriority, Rank;
      if cs[0].url.scheme == "https" {
        PriorityCons(cs[0], Https(cs[1..]), cs[1..]);
      } else {
        Append([], Https(cs[1..]));
      }
    }
  }

  lemma PriorityTail(cs: seq<Candidate>)
    requires cs != [] && ByPriority(cs)
    ensures ByPriority(cs[1..]) && forall c :: c in cs[1..] ==> Rank(cs[0].means) <= Rank(c.means)
  {
    hide Rank;
    forall c | c in cs[1..] ensures Rank(cs[0].means) <= Rank(c.means) {
      var i :| 0 <= i < |cs[1..]| && cs[1..][i] == c;
      assert c == cs[i + 1];
    }
  }

  lemma PriorityCons(c: Candidate, rest: seq<Candidate>, all: seq<Candidate>)
    requires ByPriority(rest) && forall x :: x in rest ==> x in all
    requires forall x :: x in all ==> Rank(c.means) <= Rank(x.means)
    ensures ByPriority([c] + rest)
  {
    hide Rank;
    forall j | 0 <= j < |rest| ensures Rank(c.means) <= Rank(rest[j].means) {
      assert rest[j] in rest;
    }
  }

  lemma {:induction false} WellKnownsAre(web: Web, bases: seq<Url>)
    ensures forall i :: 0 <= i < |WellKnowns(web, bases)| ==> WellKnowns(web, bases)[i].means == WellKnown
  {
    if bases != [] {
      WellKnownsAre(web, bases[1..]);
    }
  }

  lemma PriorityAppend(a: seq<Candidate>, b: seq<Candidate>, rank: nat)
    requires ByPriority(a) && ByPriority(b)
    requires forall i :: 0 <= i < |a| ==> Rank(a[i].means) <= rank
    requires forall i :: 0 <= i < |b| ==> rank <= Rank(b[i].means)
    ensures ByPriority(a + b)
  {
    hide Rank;
  }

  lemma LinksByPriority(web: Web, start: Url)
    ensures ByPriority(Links(web, start))
    ensures forall i :: 0 <= i < |Links(web, start)| ==> 1 <= Rank(Links(web, start)[i].means) <= 2
  {
    match web.get(start) {
      case None =>
      case Some(r) =>
        if IsSuccess(r) {
          hide HeaderTargets, HtmlTargets, IsHtml;
          PriorityAppend(By(HeaderTargets(web, r), Means.LinkHeader), if IsHtml(r) then By(HtmlTargets(web, r), HtmlLink) else [], 1);
        }
    }
  }

  /** Candidates are planned by priority: direct, Link header, HTML link, well-known. */
  lemma PlanByPriority(web: Web, start: Url)
    ensures ByPriority(Plan(web, start))
  {
    LinksByPriority(web, start);
    var links := Links(web, start);
    HttpsPriority(links);
    WellKnownsAre(web, WellKnownBases(web, start));
    var https, wells, queue := Https(links), WellKnowns(web, WellKnownBases(web, start)), Queue(web, start);
    forall i | 0 <= i < |https| ensures 1 <= Rank(https[i].means) <= 2 {
      assert https[i] in https;
    }
    hide Links, Https, WellKnowns, WellKnownBases, RequestKey;
    PriorityAppend(https, wells, 2);
    assert forall i :: 0 <= i < |queue| ==> 1 <= Rank(queue[i].means);
    hide Queue;
    var at := UnseenExact({RequestKey(start)}, queue);
    PriorityAppend([Candidate(start, Direct)], Unseen({RequestKey(start)}, queue), 0);
  }

  // ---------------------------------------------------------------- https

  predicate AllHttps(urls: seq<Url>) {
    forall i :: 0 <= i < |urls| ==> urls[i].scheme == "https"
  }

  /** Joining the well-known path keeps the scheme of the base. */
  ghost predicate JoinKeepsScheme(web: Web) {
    forall url :: web.join(url, WELL_KNOWN_PATH).Some? ==> web.join(url, WELL_KNOWN_PATH).value.scheme == url.scheme
  }

  /** The well-known URL of a host reached over another scheme than https, if there is one. */
  function InsecureWellKnown(web: Web, start: Url): Option<Url> {
    match web.get(start)
    case None => None
    case Some(r) => if r.url.scheme == "https" then None else web.join(r.url, WELL_KNOWN_PATH)
  }

  /** The https links that are tried before the well-known URLs. */
  function LinkPlan(web: Web, start: Url): seq<Candidate> {
    [Candidate(start, Direct)] + Unseen({RequestKey(start)}, Https(Links(web, start)))
  }

  lemma {:induction false} UnseenAppend(seen: set<Url>, a: seq<Candidate>, b: seq<Candidate>) returns (more: set<Url>)
    ensures Unseen(seen, a + b) == Unseen(seen, a) + Unseen(more, b)
    ensures forall key :: key in more ==> key in seen || exists i :: 0 <= i < |a| && key == RequestKey(a[i].url)
    decreases a
  {
    hide RequestKey;
    if a == [] {
      more := seen;
      Append(a, b);
      Append([], Unseen(seen, b));
    } else {
      assert (a + b)[0] == a[0] && (a + b)[1..] == a[1..] + b;
      var key := RequestKey(a[0].url);
      more := UnseenAppend(if key in seen then seen else seen + {key}, a[1..], b);
      Associate([a[0]], Unseen(seen + {key}, a[1..]), Unseen(more, b));
      forall k | k in more && k !in seen ensures exists i :: 0 <= i < |a| && k == RequestKey(a[i].url) {
        if k != key {
          var i :| 0 <= i < |a[1..]| && k == RequestKey(a[1..][i].url);
          assert a[i + 1] == a[1..][i];
        }
      }
    }
  }

  lemma PlanAllHttps(web: Web, start: Url)
    requires start.scheme == "https" && JoinKeepsScheme(web) && InsecureWellKnown(web, start).None?
    ensures AllHttps(UrlsOf(Plan(web, start)))
  {
    var queue := Queue(web, start);
    LinksByPriority(web, start);
    HttpsPriority(Links(web, start));
    WellKnownsHttps(web, start);
    var https, wells := Https(Links(web, start)), WellKnowns(web, WellKnownBases(web, start));
    forall i | 0 <= i < |queue| ensures queue[i].url.scheme == "https" {
      if i < |https| {
        assert queue[i] in https;
      }
    }
    hide Queue, Https, WellKnowns, RequestKey;
    var at := UnseenExact({RequestKey(start)}, queue);
    hide Unseen;
  }

  lemma WellKnownsHttps(web: Web, start: Url)
    requires start.scheme == "https" && JoinKeepsScheme(web) && InsecureWellKnown(web, start).None?
    ensures forall i :: 0 <= i < |WellKnowns(web, WellKnownBases(web, start))| ==>
              WellKnowns(web, WellKnownBases(web, start))[i].url.scheme == "https"
  {
    AllJoinHttps(web, WellKnownBases(web, start));
  }

  predicate JoinsHttps(web: Web, base: Url) {
    match web.join(base, WELL_KNOWN_PATH)
    case Some(url) => url.scheme == "https"
    case None => true
  }

  lemma {:induction false} AllJoinHttps(web: Web, bases: seq<Url>)
    requires forall i :: 0 <= i < |bases| ==> JoinsHttps(web, bases[i])
    ensures forall i :: 0 <= i < |WellKnowns(web, bases)| ==> WellKnowns(web, bases)[i].url.scheme == "https"
  {
    if bases != [] {
      AllJoinHttps(web, bases[1..]);
    }
  }

  /** With a host reached over another scheme, its well-known URL comes right after the links. */
  lemma InsecureIsNext(web: Web, start: Url)
    requires start.scheme == "https" && JoinKeepsScheme(web) && InsecureWellKnown(web, start).Some?
    ensures var n := |LinkPlan(web, start)|;
            && n < |Plan(web, start)| && Plan(web, start)[..n] == LinkPlan(web, start)
            && Plan(web, start)[n] == Candidate(InsecureWellKnown(web, start).value, WellKnown)
            && Plan(web, start)[n].url.scheme != "https"
  {
    var https, wells := Https(Links(web, start)), WellKnowns(web, WellKnownBases(web, start));
    LinksByPriority(web, start);
    HttpsPriority(Links(web, start));
    var r := web.get(start).value;
    assert WellKnownBases(web, start) == [r.url, start];
    var insecure := Candidate(InsecureWellKnown(web, start).value, WellKnown);
    assert wells[0] == insecure;
    var seen := {RequestKey(start)};
    var more := UnseenAppend(seen, https, wells);
    assert RequestKey(insecure.url) !in more by {
      forall key | key in more ensures key.scheme == "https" {
        if key !in seen {
          var i :| 0 <= i < |https| && key == RequestKey(https[i].url);
          assert https[i] in https;
        }
      }
    }
    assert Unseen(more, wells)[0] == insecure;
    hide Https, WellKnowns, Unseen, Links, WellKnownBases, RequestKey;
    Associate([Candidate(start, Direct)], Unseen(seen, https), Unseen(more, wells));
    Splice(LinkPlan(web, start), Unseen(more, wells));
  }

  lemma Splice<T>(a: seq<T>, b: seq<T>)
    requires b != []
    ensures |a| < |a + b| && (a + b)[..|a|] == a && (a + b)[|a|] == b[0]
  {
  }

  /** Every request is https, except in one case: the host was reached over another scheme, its
      well-known URL exists, and neither the start nor an https link is a catalog. */
  lemma HttpsExactly(web: Web, start: Url)
    requires start.scheme == "https" && JoinKeepsScheme(web)
    ensures AllHttps(Requests(web, start)) <==>
            InsecureWellKnown(web, start).None? ||
            exists i :: 0 <= i < |LinkPlan(web, start)| && IsCatalog(web, LinkPlan(web, start)[i])
  {
    if InsecureWellKnown(web, start).None? {
      SecureRequests(web, start);
    } else {
      InsecureRequests(web, start);
    }
  }

  lemma SecureRequests(web: Web, start: Url)
    requires start.scheme == "https" && JoinKeepsScheme(web) && InsecureWellKnown(web, start).None?
    ensures AllHttps(Requests(web, start))
  {
    PlanAllHttps(web, start);
    var plan := Plan(web, start);
    var k := FirstCatalog(web, plan);
    hide Plan, JoinKeepsScheme, FirstCatalog, InsecureWellKnown;
    assert forall i :: 0 <= i < |Requests(web, start)| ==> Requests(web, start)[i] == UrlsOf(plan)[i];
  }

  lemma InsecureRequests(web: Web, start: Url)
    requires start.scheme == "https" && JoinKeepsScheme(web) && InsecureWellKnown(web, start).Some?
    ensures AllHttps(Requests(web, start)) <==>
            exists i :: 0 <= i < |LinkPlan(web, start)| && IsCatalog(web, LinkPlan(web, start)[i])
  {
    var plan, links := Plan(web, start), LinkPlan(web, start);
    InsecureIsNext(web, start);
    LinkPlanHttps(web, start);
    hide Plan, JoinKeepsScheme, LinkPlan, IsCatalog, InsecureWellKnown, Requests;
    StopsInside(web, plan, links);
    assert Requests(web, start) == Asked(web, plan) by { RequestsAreAsked(web, start); }
  }

  /** The URLs of a plan that are requested. */
  function Asked(web: Web, plan: seq<Candidate>): seq<Url> {
    var k := FirstCatalog(web, plan);
    UrlsOf(if k < |plan| then plan[..k + 1] else plan)
  }

  lemma RequestsAreAsked(web: Web, start: Url)
    ensures Requests(web, start) == Asked(web, Plan(web, start))
  {
  }

  /** A plan whose first candidate that is not https comes after `links`. */
  lemma StopsInside(web: Web, plan: seq<Candidate>, links: seq<Candidate>)
    requires |links| < |plan| && plan[..|links|] == links && plan[|links|].url.scheme != "https"
    requires forall i :: 0 <= i < |links| ==> links[i].url.scheme == "https"
    ensures AllHttps(Asked(web, plan)) <==> exists i :: 0 <= i < |links| && IsCatalog(web, links[i])
  {
    var k, asked := FirstCatalog(web, plan), Asked(web, plan);
    assert forall i :: 0 <= i < |links| ==> links[i] == plan[..|links|][i] == plan[i];
    hide IsCatalog, FirstCatalog;
    if k < |links| {
      assert IsCatalog(web, links[k]);
      assert forall i :: 0 <= i < |asked| ==> asked[i] == links[i].url;
    } else {
      assert asked[|links|] == plan[|links|].url;
    }
  }

  lemma LinkPlanHttps(web: Web, start: Url)
    requires start.scheme == "https"
    ensures forall i :: 0 <= i < |LinkPlan(web, start)| ==> LinkPlan(web, start)[i].url.scheme == "https"
  {
    LinksByPriority(web, start);
    HttpsPriority(Links(web, start));
    var https := Https(Links(web, start));
    hide Https, Links, RequestKey;
    var at := UnseenExact({RequestKey(start)}, https);
    forall i | 0 <= i < |at| ensures Unseen({RequestKey(start)}, https)[i] in https {
    }
    hide Unseen;
  }
}
