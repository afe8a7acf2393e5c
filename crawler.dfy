/**
 * src/main.rs: the href filter of `extract_links`, the copy of `UrlManager`
 * that the binary uses, and the sequential crawl loop of `main`.
 */
module Crawler {
  import opened Wrappers
  import opened Frontier

  /** An anchor element as the HTML parser yields it: its href attribute, if any. */
  datatype Anchor = Anchor(href: Option<string>)

  /** The outcome of fetching one URL: the anchors of the page, or an error. */
  datatype FetchResult = Ok(anchors: seq<Anchor>) | Err(cause: string)

  /** `starts_with("http")`: the only test a link must pass. */
  predicate StartsWithHttp(s: string) {
    |s| >= 4 && s[0] == 'h' && s[1] == 't' && s[2] == 't' && s[3] == 'p'
  }

  /** The link one anchor contributes: none, or its href when that is absolute. */
  function Kept(a: Anchor): seq<string> {
    match a.href
    case None => []
    case Some(h) => if StartsWithHttp(h) then [h] else []
  }

  /** The `filter_map` of `extract_links`, over the anchors in document order. */
  function ExtractLinks(anchors: seq<Anchor>): (links: seq<string>)
    ensures |links| <= |anchors|
    ensures forall l :: l in links ==> StartsWithHttp(l)
  {
    if anchors == [] then [] else Kept(anchors[0]) + ExtractLinks(anchors[1..])
  }

  /** Extraction keeps order: the links of two pieces of a page are concatenated. */
  lemma {:induction false} ExtractLinksConcat(a: seq<Anchor>, b: seq<Anchor>)
    ensures ExtractLinks(a + b) == ExtractLinks(a) + ExtractLinks(b)
  {
    if a == [] {
      assert a + b == b;
    } else {
      assert (a + b)[1..] == a[1..] + b;
      ExtractLinksConcat(a[1..], b);
    }
  }

  /** A string is extracted exactly when it starts with "http" and is the href of some anchor. */
  lemma {:induction false} ExtractLinksMembership(anchors: seq<Anchor>, u: string)
    ensures u in ExtractLinks(anchors) <==>
            StartsWithHttp(u) && exists i :: 0 <= i < |anchors| && anchors[i].href == Some(u)
  {
    if anchors != [] {
      var tail := anchors[1..];
      ExtractLinksMembership(tail, u);
      if exists i :: 0 <= i < |anchors| && anchors[i].href == Some(u) {
        var i :| 0 <= i < |anchors| && anchors[i].href == Some(u);
        if i > 0 {
          assert tail[i - 1].href == Some(u);
        }
      }
      if exists i :: 0 <= i < |tail| && tail[i].href == Some(u) {
        var i :| 0 <= i < |tail| && tail[i].href == Some(u);
        assert anchors[i + 1].href == Some(u);
      }
    }
  }

  /** The example page with one relative and two absolute anchors. */
  lemma ExtractLinksExample()
    ensures ExtractLinks([Anchor(Some("http://a/")), Anchor(Some("/rel")), Anchor(None), Anchor(Some("http://b/"))])
            == ["http://a/", "http://b/"]
  {
    assert StartsWithHttp("http://b/") && StartsWithHttp("http://a/");
    assert !StartsWithHttp("/rel") by { assert "/rel"[0] != 'h'; }
    assert ExtractLinks([Anchor(Some("http://b/"))]) == ["http://b/"];
    assert ExtractLinks([Anchor(None), Anchor(Some("http://b/"))]) == ["http://b/"];
  }

  /** The links `main` hands to `add_url` after a fetch: none on an error. */
  function Links(r: FetchResult): seq<string> {
    match r
    case Ok(anchors) => ExtractLinks(anchors)
    case Err(_) => []
  }

  /** Every link found on the successfully fetched pages of `trace`. */
  function Discovered(fetch: string -> FetchResult, trace: seq<string>): (found: set<string>)
    ensures forall u :: u in found ==> StartsWithHttp(u)
  {
    if trace == [] then {}
    else Discovered(fetch, trace[..|trace| - 1]) + Elems(Links(fetch(trace[|trace| - 1])))
  }

  /** One unfolding of `Discovered`, as a membership test. */
  lemma DiscoveredUnfold(fetch: string -> FetchResult, trace: seq<string>, u: string)
    requires trace != []
    ensures u in Discovered(fetch, trace) <==>
            u in Discovered(fetch, trace[..|trace| - 1]) || u in Links(fetch(trace[|trace| - 1]))
  {
  }

  /** Every link of a page fetched during `trace` is discovered. */
  lemma {:induction false} DiscoveredIncludes(fetch: string -> FetchResult, trace: seq<string>, i: nat, u: string)
    requires i < |trace| && u in Links(fetch(trace[i]))
    ensures u in Discovered(fetch, trace)
  {
    var n := |trace| - 1;
    DiscoveredUnfold(fetch, trace, u);
    if i < n {
      var prefix := trace[..n];
      assert prefix[i] == trace[i];
      DiscoveredIncludes(fetch, prefix, i, u);
    } else {
      assert i == n;
      var url := trace[i];
      assert url == trace[|trace| - 1];
      assert u in Links(fetch(url));
    }
  }

  /** Every discovered link comes from a page fetched during `trace`. */
  lemma {:induction false} DiscoveredSource(fetch: string -> FetchResult, trace: seq<string>, u: string)
    requires u in Discovered(fetch, trace)
    ensures exists i :: 0 <= i < |trace| && u in Links(fetch(trace[i]))
  {
    var n := |trace| - 1;
    var prefix := trace[..n];
    if u in Discovered(fetch, prefix) {
      DiscoveredSource(fetch, prefix, u);
      var i :| 0 <= i < |prefix| && u in Links(fetch(prefix[i]));
      assert trace[i] == prefix[i];
    } else {
      assert u in Elems(Links(fetch(trace[n])));
    }
  }

  /** A link is discovered exactly when it was extracted from one of the pages of `trace`. */
  lemma DiscoveredMembership(fetch: string -> FetchResult, trace: seq<string>, u: string)
    ensures u in Discovered(fetch, trace) <==> exists i :: 0 <= i < |trace| && u in Links(fetch(trace[i]))
  {
    if u in Discovered(fetch, trace) {
      DiscoveredSource(fetch, trace, u);
    }
    if exists i :: 0 <= i < |trace| && u in Links(fetch(trace[i])) {
      var i :| 0 <= i < |trace| && u in Links(fetch(trace[i]));
      DiscoveredIncludes(fetch, trace, i, u);
    }
  }

  /** What was discovered on a prefix of the fetched URLs stays discovered. */
  lemma DiscoveredPrefix(fetch: string -> FetchResult, trace: seq<string>, k: nat, u: string)
    requires k <= |trace| && u in Discovered(fetch, trace[..k])
    ensures u in Discovered(fetch, trace)
  {
    DiscoveredSource(fetch, trace[..k], u);
    var i :| 0 <= i < k && u in Links(fetch(trace[..k][i]));
    assert trace[..k][i] == trace[i];
    DiscoveredIncludes(fetch, trace, i, u);
  }

  /**
   * When every URL after the first was discovered before it was fetched, and
   * everything discovered was fetched, the fetched URLs are exactly the first
   * one and the discovered ones.
   */
  lemma FetchedExactly(start: string, fetch: string -> FetchResult, trace: seq<string>)
    requires |trace| >= 1 && trace[0] == start
    requires forall i :: 0 < i < |trace| ==> trace[i] in Discovered(fetch, trace[..i])
    requires Discovered(fetch, trace) <= Elems(trace)
    ensures Elems(trace) == {start} + Discovered(fetch, trace)
  {
    forall u | u in Elems(trace)
      ensures u in {start} + Discovered(fetch, trace)
    {
      var i :| 0 <= i < |trace| && trace[i] == u;
      if i > 0 {
        DiscoveredPrefix(fetch, trace, i, u);
      }
    }
  }

  /** `universe` holds every link of every page fetched from inside it. */
  predicate LinksWithin(universe: set<string>, fetch: string -> FetchResult) {
    forall u :: u in universe ==> Elems(Links(fetch(u))) <= universe
  }

  /** The copy of `UrlManager` in src/main.rs; it has no `is_empty`. */
  class UrlManager {
    var visited: set<string>
    var toVisit: set<string>

    function State(): Frontier.State
      reads this
    {
      Frontier.State(visited, toVisit)
    }

    ghost predicate Valid()
      reads this
    {
      Disjoint(State())
    }

    constructor ()
      ensures Valid()
      ensures State() == Init()
    {
      visited := {};
      toVisit := {};
    }

    method AddUrl(urls: seq<string>)
      requires Valid()
      modifies this
      ensures Valid()
      ensures State() == Added(old(State()), urls)
    {
      for i := 0 to |urls|
        invariant visited == old(visited)
        invariant toVisit == old(toVisit) + set u | u in urls[..i] && u !in visited
      {
        assert urls[..i + 1] == urls[..i] + [urls[i]];
        if urls[i] !in visited {
          toVisit := toVisit + {urls[i]};
        }
      }
      assert urls[..|urls|] == urls;
      AddedSpec(old(State()), urls);
    }

    method GetNextUrl() returns (next: Option<string>)
      requires Valid()
      modifies this
      ensures Valid()
      ensures next.None? <==> old(toVisit) == {}
      ensures next.None? ==> State() == old(State())
      ensures next.Some? ==> Taken(old(State()), next.value, State())
    {
      if toVisit == {} {
        next := None;
      } else {
        var url :| url in toVisit;
        toVisit := toVisit - {url};
        visited := visited + {url};
        next := Some(url);
      }
    }
  }

  /** The URL `get_next_url` has just handed out, as a set. */
  function Pending(next: Option<string>): set<string> {
    if next.Some? then {next.value} else {}
  }

  /** The part of the loop invariant of `main` about the frontier `s`. */
  ghost predicate FrontierInvariant(fetch: string -> FetchResult, universe: set<string>,
                                    s: State, trace: seq<string>, next: Option<string>)
  {
    && Disjoint(s)
    && (next.None? ==> s.toVisit == {})
    && s.visited == Elems(trace) + Pending(next)
    && (next.Some? ==> next.value !in Elems(trace))
    && s.visited + s.toVisit <= universe
    && s.toVisit <= Discovered(fetch, trace)
    && Discovered(fetch, trace) <= s.visited + s.toVisit
  }

  /** The part of the loop invariant of `main` about the order in which URLs are fetched. */
  ghost predicate TraceInvariant(start: string, fetch: string -> FetchResult, trace: seq<string>, next: Option<string>)
  {
    && NoDuplicates(trace)
    && (if trace == [] then next == Some(start) else trace[0] == start)
    && (forall i :: 0 < i < |trace| ==> trace[i] in Discovered(fetch, trace[..i]))
    && (next.Some? && trace != [] ==> next.value in Discovered(fetch, trace))
  }

  /**
   * What holds at the head of every iteration of the loop of `main`: `trace`
   * are the URLs fetched so far, `next` the URL just taken, `s` the frontier.
   */
  ghost predicate CrawlInvariant(start: string, fetch: string -> FetchResult, universe: set<string>,
                                 s: State, trace: seq<string>, next: Option<string>)
  {
    FrontierInvariant(fetch, universe, s, trace, next) && TraceInvariant(start, fetch, trace, next)
  }

  /** The seeded frontier, after the first `get_next_url`, satisfies the invariant. */
  lemma CrawlInvariantInit(start: string, fetch: string -> FetchResult, universe: set<string>,
                           s1: State, next: Option<string>, s2: State)
    requires start in universe
    requires s1 == Added(Init(), [start])
    requires next.None? ==> s1.toVisit == {} && s2 == s1
    requires next.Some? ==> Taken(s1, next.value, s2)
    ensures CrawlInvariant(start, fetch, universe, s2, [], next)
  {
    assert s1.toVisit == {start} by {
      assert (set u | u in [start] && u !in {}) == {start};
    }
  }

  /** One iteration keeps the frontier part of the invariant, and the URL taken next was discovered. */
  lemma FrontierInvariantStep(fetch: string -> FetchResult, universe: set<string>,
                              s0: State, trace: seq<string>, url: string, s1: State, next: Option<string>, s2: State)
    requires LinksWithin(universe, fetch)
    requires FrontierInvariant(fetch, universe, s0, trace, Some(url))
    requires s1 == Added(s0, Links(fetch(url)))
    requires next.None? ==> s1.toVisit == {} && s2 == s1
    requires next.Some? ==> Taken(s1, next.value, s2)
    ensures FrontierInvariant(fetch, universe, s2, trace + [url], next)
    ensures next.Some? ==> next.value in Discovered(fetch, trace + [url])
  {
  }

  /** Appending a URL not yet in `trace` keeps it free of duplicates. */
  lemma NoDuplicatesSnoc(trace: seq<string>, url: string)
    requires NoDuplicates(trace) && url !in Elems(trace)
    ensures NoDuplicates(trace + [url])
  {
  }

  /** Appending a URL discovered on the pages of `trace` keeps every URL discovered before it is fetched. */
  lemma DiscoveredBeforeSnoc(fetch: string -> FetchResult, trace: seq<string>, url: string)
    requires forall i :: 0 < i < |trace| ==> trace[i] in Discovered(fetch, trace[..i])
    requires trace != [] ==> url in Discovered(fetch, trace)
    ensures forall i :: 0 < i < |trace + [url]| ==> (trace + [url])[i] in Discovered(fetch, (trace + [url])[..i])
  {
    var trace' := trace + [url];
    forall i | 0 < i < |trace'|
      ensures trace'[i] in Discovered(fetch, trace'[..i])
    {
      if i < |trace| {
        assert trace'[..i] == trace[..i];
        assert trace'[i] == trace[i];
      } else {
        assert trace'[..i] == trace;
      }
    }
  }

  /** One iteration keeps the order part of the invariant. */
  lemma TraceInvariantStep(start: string, fetch: string -> FetchResult, trace: seq<string>, url: string, next: Option<string>)
    requires url !in Elems(trace)
    requires TraceInvariant(start, fetch, trace, Some(url))
    requires next.Some? ==> next.value in Discovered(fetch, trace + [url])
    ensures TraceInvariant(start, fetch, trace + [url], next)
  {
    NoDuplicatesSnoc(trace, url);
    DiscoveredBeforeSnoc(fetch, trace, url);
  }

  /** One iteration of the loop of `main` keeps the invariant. */
  lemma CrawlInvariantStep(start: string, fetch: string -> FetchResult, universe: set<string>,
                           s0: State, trace: seq<string>, url: string, s1: State, next: Option<string>, s2: State)
    requires LinksWithin(universe, fetch)
    requires CrawlInvariant(start, fetch, universe, s0, trace, Some(url))
    requires s1 == Added(s0, Links(fetch(url)))
    requires next.None? ==> s1.toVisit == {} && s2 == s1
    requires next.Some? ==> Taken(s1, next.value, s2)
    ensures CrawlInvariant(start, fetch, universe, s2, trace + [url], next)
  {
    FrontierInvariantStep(fetch, universe, s0, trace, url, s1, next, s2);
    TraceInvariantStep(start, fetch, trace, url, next);
  }

  /** When `get_next_url` returns None, the invariant gives everything `Crawl` promises. */
  lemma CrawlInvariantExit(start: string, fetch: string -> FetchResult, universe: set<string>,
                           s: State, trace: seq<string>)
    requires CrawlInvariant(start, fetch, universe, s, trace, None)
    ensures |trace| >= 1 && trace[0] == start
    ensures NoDuplicates(trace)
    ensures forall i :: 0 < i < |trace| ==> trace[i] in Discovered(fetch, trace[..i])
    ensures Discovered(fetch, trace) <= Elems(trace)
    ensures Elems(trace) <= universe
    ensures Elems(trace) == {start} + Discovered(fetch, trace)
  {
    FetchedExactly(start, fetch, trace);
  }

  /**
   * The loop of `main`: seed the frontier with `start`, then take one URL at a
   * time, fetch it and queue the links of the page, until `get_next_url`
   * returns None.  The result is the URLs fetched, in order.  Termination is
   * shown for a finite `universe` that the fetched pages never leave.
   */
  method Crawl(start: string, fetch: string -> FetchResult, ghost universe: set<string>) returns (trace: seq<string>)
    requires start in universe
    requires LinksWithin(universe, fetch)
    ensures |trace| >= 1 && trace[0] == start
    ensures NoDuplicates(trace)
    ensures forall i :: 0 < i < |trace| ==> trace[i] in Discovered(fetch, trace[..i])
    ensures Discovered(fetch, trace) <= Elems(trace)
    ensures Elems(trace) <= universe
    ensures Elems(trace) == {start} + Discovered(fetch, trace)
  {
    var manager := new UrlManager();
    manager.AddUrl([start]);
    ghost var seeded := manager.State();
    trace := [];
    var next := manager.GetNextUrl();
    CrawlInvariantInit(start, fetch, universe, seeded, next, manager.State());
    while next.Some?
      invariant manager.Valid()
      invariant CrawlInvariant(start, fetch, universe, manager.State(), trace, next)
      decreases universe - Elems(trace)
    {
      var url := next.value;
      ghost var s0 := manager.State();
      match fetch(url) {
        case Ok(anchors) =>
          manager.AddUrl(ExtractLinks(anchors));
        case Err(_) =>
          assert Added(s0, []) == s0;
      }
      ghost var s1 := manager.State();
      next := manager.GetNextUrl();
      CrawlInvariantStep(start, fetch, universe, s0, trace, url, s1, next, manager.State());
      trace := trace + [url];
    }
    CrawlInvariantExit(start, fetch, universe, manager.State(), trace);
  }

  /** A crawl whose every fetch fails ends after fetching the start URL alone. */
  method CrawlAllFetchesFail(start: string) returns (trace: seq<string>)
    ensures trace == [start]
  {
    var fetch: string -> FetchResult := _ => Err("unreachable");
    trace := Crawl(start, fetch, {start});
  }

  /**
   * The first step of a crawl from "http://x/a" whose page links to
   * "http://x/b", the relative "/c" and itself: only "http://x/b" is queued.
   */
  lemma FirstPageScenario()
    ensures var links := ExtractLinks([Anchor(Some("http://x/b")), Anchor(Some("/c")), Anchor(Some("http://x/a"))]);
            Added(State({"http://x/a"}, {}), links) == State({"http://x/a"}, {"http://x/b"})
  {
  }
}
