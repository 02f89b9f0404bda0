/**
 * The crawl engine (`crawl_website`): a loop over a frontier set and a visited
 * set under a page budget. The next URL is an arbitrary element of the frontier,
 * as `set.pop()` gives it. The network and the HTML parser are the oracles of a
 * `Web` value.
 */
module Crawler {
  import opened Wrappers
  import opened Seqs
  import opened Html
  import opened PageAudit

  /**
   * The world the crawl talks to: the outcome of `requests.get` for every URL,
   * the parse of every HTML text, `urljoin`, and the outcome of `requests.head`.
   */
  datatype Web = Web(
    get: Url -> HttpOutcome,
    parse: string -> Page,
    resolve: (Url, string) -> Url,
    probe: Url -> ProbeResult)

  /** `fetch_page(url)` yields HTML that `not html` does not reject: a body, and a non-empty one. */
  predicate FetchOk(web: Web, u: Url)
  {
    var html := FetchPage(web.get(u));
    html.Some? && html.value != ""
  }

  /** The audit of a page whose fetch succeeded. */
  function PageReport(web: Web, u: Url): Result<SeoReport, KeyError>
    requires FetchOk(web, u)
  {
    SeoMetrics(web.parse(FetchPage(web.get(u)).value), u, web.resolve, web.probe)
  }

  /** What the crawl hands back: the reports and the internal links it discovered, or the KeyError that ended it. */
  datatype CrawlOutcome =
    | Finished(reports: seq<SeoReport>, discovered: set<Url>)
    | Crashed(error: KeyError)

  /**
   * `all_internal_links` after the pages `order` were visited with reports
   * `reports`: each page adds its internal links that were not visited yet
   * when it was processed.
   */
  ghost function Discovered(reports: seq<SeoReport>, order: seq<Url>): set<Url>
    requires |reports| == |order|
    decreases |order|
  {
    if order == [] then {}
    else
      var n := |order| - 1;
      Discovered(reports[..n], order[..n]) + (reports[n].internalLinks - Elems(order[..n]))
  }

  /** All the internal links of a sequence of reports. */
  ghost function AllInternal(reports: seq<SeoReport>): set<Url>
    decreases |reports|
  {
    if reports == [] then {} else AllInternal(reports[..|reports| - 1]) + reports[|reports| - 1].internalLinks
  }

  /** Every page after the first was discovered on a page visited before it. */
  ghost predicate DiscoveredFirst(reports: seq<SeoReport>, order: seq<Url>)
    requires |reports| == |order|
  {
    forall i :: 0 < i < |order| ==> order[i] in Discovered(reports[..i], order[..i])
  }

  /** Every visited page was fetched, and its report is the audit of what was fetched. */
  ghost predicate Audited(web: Web, reports: seq<SeoReport>, order: seq<Url>)
    requires |reports| == |order|
  {
    forall i :: 0 <= i < |order| ==> FetchOk(web, order[i]) && PageReport(web, order[i]) == Ok(reports[i])
  }

  /**
   * The pages `order` were visited in this order from `seed` within the budget
   * `maxPages`, with reports `reports`, gathering `discovered`:
   *   - one report per visited page, and no page visited twice;
   *   - no more pages than the budget (none when the budget is not positive);
   *   - the seed first, and every later page discovered on an earlier one;
   *   - every visited page fetched, and its report the audit of what was fetched;
   *   - `discovered` gathered as the loop gathers `all_internal_links`.
   */
  ghost predicate Visits(web: Web, seed: Url, maxPages: int, reports: seq<SeoReport>, discovered: set<Url>, order: seq<Url>)
  {
    && |reports| == |order|
    && Distinct(order)
    && (order == [] || |order| <= maxPages)
    && (order != [] ==> order[0] == seed)
    && DiscoveredFirst(reports, order)
    && Audited(web, reports, order)
    && discovered == Discovered(reports, order)
  }

  /**
   * A finished crawl: the visits above, and, unless the budget ran out, the seed
   * and every discovered link were visited or failed to fetch.
   */
  ghost predicate IsRun(web: Web, seed: Url, maxPages: int, reports: seq<SeoReport>, discovered: set<Url>, order: seq<Url>)
  {
    && Visits(web, seed, maxPages, reports, discovered, order)
    && (|order| < maxPages ==> forall u :: u == seed || u in discovered ==> u in order || !FetchOk(web, u))
  }

  /**
   * The state of the crawl loop: the visits so far, the visited set holding
   * exactly the visited pages, a frontier of the seed and discovered links, and
   * every such link still in the frontier, visited, or failed to fetch.
   */
  ghost predicate LoopState(web: Web, seed: Url, maxPages: int, visited: set<Url>, toVisit: set<Url>,
                            discovered: set<Url>, reports: seq<SeoReport>, order: seq<Url>)
  {
    && Visits(web, seed, maxPages, reports, discovered, order)
    && visited == Elems(order)
    && |visited| == |order|
    && toVisit <= {seed} + discovered
    && forall u :: u == seed || u in discovered ==> u in toVisit || u in visited || !FetchOk(web, u)
  }

  /** Appending a visit extends the discovered links by the new page's unvisited internal links. */
  lemma DiscoveredSnoc(reports: seq<SeoReport>, order: seq<Url>, report: SeoReport, u: Url)
    requires |reports| == |order|
    ensures Discovered(reports + [report], order + [u]) == Discovered(reports, order) + (report.internalLinks - Elems(order))
  {
    assert (reports + [report])[..|order|] == reports;
    assert (order + [u])[..|order|] == order;
  }

  /** The loop starts in a loop state. */
  lemma LoopStart(web: Web, seed: Url, maxPages: int)
    ensures LoopState(web, seed, maxPages, {}, {seed}, {}, [], [])
  {
  }

  /** Popping a URL that was visited already, or whose fetch fails, keeps the loop state. */
  lemma SkipStep(web: Web, seed: Url, maxPages: int, visited: set<Url>, toVisit: set<Url>,
                 discovered: set<Url>, reports: seq<SeoReport>, order: seq<Url>, current: Url)
    requires LoopState(web, seed, maxPages, visited, toVisit, discovered, reports, order)
    requires current in toVisit && (current in visited || !FetchOk(web, current))
    ensures LoopState(web, seed, maxPages, visited, toVisit - {current}, discovered, reports, order)
  {
  }

  lemma DiscoveredFirstSnoc(reports: seq<SeoReport>, order: seq<Url>, report: SeoReport, u: Url)
    requires |reports| == |order| && DiscoveredFirst(reports, order)
    requires order != [] ==> u in Discovered(reports, order)
    ensures DiscoveredFirst(reports + [report], order + [u])
  {
    var reports', order' := reports + [report], order + [u];
    forall i | 0 < i < |order'| ensures order'[i] in Discovered(reports'[..i], order'[..i]) {
      assert reports'[..i] == reports[..i] && order'[..i] == order[..i];
    }
  }

  lemma AuditedSnoc(web: Web, reports: seq<SeoReport>, order: seq<Url>, report: SeoReport, u: Url)
    requires |reports| == |order| && Audited(web, reports, order)
    requires FetchOk(web, u) && PageReport(web, u) == Ok(report)
    ensures Audited(web, reports + [report], order + [u])
  {
    var reports', order' := reports + [report], order + [u];
    forall i | 0 <= i < |order'| ensures FetchOk(web, order'[i]) && PageReport(web, order'[i]) == Ok(reports'[i]) {
      if i < |order| {
        assert order'[i] == order[i] && reports'[i] == reports[i];
      }
    }
  }

  lemma DistinctSnoc<X>(xs: seq<X>, x: X)
    requires Distinct(xs) && x !in Elems(xs)
    ensures Distinct(xs + [x]) && Elems(xs + [x]) == Elems(xs) + {x}
  {
  }

  /** Visiting a fetched, unvisited URL within the budget keeps the loop state. */
  lemma VisitStep(web: Web, seed: Url, maxPages: int, visited: set<Url>, toVisit: set<Url>,
                  discovered: set<Url>, reports: seq<SeoReport>, order: seq<Url>, current: Url, report: SeoReport)
    requires LoopState(web, seed, maxPages, visited, toVisit, discovered, reports, order)
    requires current in toVisit && current !in visited && |visited| < maxPages
    requires FetchOk(web, current) && PageReport(web, current) == Ok(report)
    ensures var found := report.internalLinks - visited;
      LoopState(web, seed, maxPages, visited + {current}, (toVisit - {current}) + found,
                discovered + found, reports + [report], order + [current])
  {
    DiscoveredSnoc(reports, order, report, current);
    DiscoveredFirstSnoc(reports, order, report, current);
    AuditedSnoc(web, reports, order, report, current);
    DistinctSnoc(order, current);
  }

  /**
   * A crawl that visited the pages `order` within the budget and then reached `u`,
   * the seed or a discovered link not visited yet, whose audit raised `error`.
   */
  ghost predicate CrashedAt(web: Web, seed: Url, maxPages: int, order: seq<Url>, error: KeyError)
  {
    && |order| < maxPages
    && exists reports, discovered, u ::
         && Visits(web, seed, maxPages, reports, discovered, order)
         && (u == seed || u in discovered) && u !in Elems(order)
         && FetchOk(web, u) && PageReport(web, u) == Err(error)
  }

  /** Popping an unvisited URL within the budget whose audit raises ends the crawl at that URL. */
  lemma CrashStep(web: Web, seed: Url, maxPages: int, visited: set<Url>, toVisit: set<Url>,
                  discovered: set<Url>, reports: seq<SeoReport>, order: seq<Url>, current: Url, error: KeyError)
    requires LoopState(web, seed, maxPages, visited, toVisit, discovered, reports, order)
    requires current in toVisit && current !in visited && |visited| < maxPages
    requires FetchOk(web, current) && PageReport(web, current) == Err(error)
    ensures CrashedAt(web, seed, maxPages, order, error)
  {
    assert Visits(web, seed, maxPages, reports, discovered, order);
    assert current == seed || current in discovered;
  }

  /** When the loop stops, its state is a finished crawl. */
  lemma LoopEnd(web: Web, seed: Url, maxPages: int, visited: set<Url>, toVisit: set<Url>,
                discovered: set<Url>, reports: seq<SeoReport>, order: seq<Url>)
    requires LoopState(web, seed, maxPages, visited, toVisit, discovered, reports, order)
    requires toVisit == {} || |visited| >= maxPages
    ensures IsRun(web, seed, maxPages, reports, discovered, order)
  {
  }

  /**
   * The inner loop of the crawl: every link not yet visited joins the frontier
   * and the discovered links; the order in which the links are taken is arbitrary.
   */
  method QueueUnvisited(links: set<Url>, visited: set<Url>, toVisit: set<Url>, discovered: set<Url>)
    returns (toVisit': set<Url>, discovered': set<Url>)
    ensures toVisit' == toVisit + (links - visited)
    ensures discovered' == discovered + (links - visited)
  {
    toVisit', discovered' := toVisit, discovered;
    var pending := links;
    while pending != {}
      invariant pending <= links
      invariant toVisit' == toVisit + (links - pending - visited)
      invariant discovered' == discovered + (links - pending - visited)
      decreases |pending|
    {
      var link :| link in pending;
      assert links - (pending - {link}) - visited
          == (links - pending - visited) + (if link in visited then {} else {link});
      if link !in visited {
        toVisit' := toVisit' + {link};
        discovered' := discovered' + {link};
      }
      pending := pending - {link};
    }
  }

  /**
   * One pass of the crawl loop: take some queued URL, then drop it (already
   * visited, or no HTML), raise the audit's KeyError, or visit it, queueing
   * its unvisited internal links. Either the loop state holds again with a
   * smaller measure, or the crawl stops at a page it reached.
   */
  method CrawlStep(web: Web, seed: Url, maxPages: int, visited: set<Url>, toVisit: set<Url>,
                   discovered: set<Url>, reports: seq<SeoReport>, ghost order: seq<Url>)
    returns (crash: Option<KeyError>, visited': set<Url>, toVisit': set<Url>,
             discovered': set<Url>, reports': seq<SeoReport>, ghost order': seq<Url>)
    requires LoopState(web, seed, maxPages, visited, toVisit, discovered, reports, order)
    requires toVisit != {} && |visited| < maxPages
    ensures crash.Some? ==> CrashedAt(web, seed, maxPages, order', crash.value)
    ensures crash.None? ==> LoopState(web, seed, maxPages, visited', toVisit', discovered', reports', order')
    ensures crash.None? ==> (|visited'| == |visited| + 1 || (visited' == visited && |toVisit'| < |toVisit|))
  {
    var current :| current in toVisit;
    var html: Option<string> := None;
    if current !in visited {
      html := FetchPage(web.get(current));
    }
    if html.None? || html.value == "" {
      // Already visited, or the fetch yielded no HTML: drop the URL.
      SkipStep(web, seed, maxPages, visited, toVisit, discovered, reports, order, current);
      return None, visited, toVisit - {current}, discovered, reports, order;
    }
    var metrics := ParseSeoMetrics(web.parse(html.value), current, web.resolve, web.probe);
    if metrics.Err? {
      CrashStep(web, seed, maxPages, visited, toVisit, discovered, reports, order, current, metrics.error);
      return Some(metrics.error), visited, toVisit, discovered, reports, order;
    }
    var report := metrics.value;
    VisitStep(web, seed, maxPages, visited, toVisit, discovered, reports, order, current, report);
    toVisit', discovered' := QueueUnvisited(report.internalLinks, visited, toVisit - {current}, discovered);
    crash, visited', reports', order' := None, visited + {current}, reports + [report], order + [current];
  }

  /**
   * `crawl_website(url, max_pages)`. The ghost `order` is the sequence of the
   * pages reported, which the source does not keep. A KeyError raised while
   * auditing a page ends the crawl and discards its reports.
   */
  method CrawlWebsite(web: Web, seed: Url, maxPages: int) returns (outcome: CrawlOutcome, ghost order: seq<Url>)
    ensures outcome.Finished? ==> IsRun(web, seed, maxPages, outcome.reports, outcome.discovered, order)
    ensures outcome.Crashed? ==> CrashedAt(web, seed, maxPages, order, outcome.error)
  {
    var visited: set<Url> := {};
    var toVisit: set<Url> := {seed};
    var discovered: set<Url> := {};
    var reports: seq<SeoReport> := [];
    order := [];
    LoopStart(web, seed, maxPages);
    while toVisit != {} && |visited| < maxPages
      invariant LoopState(web, seed, maxPages, visited, toVisit, discovered, reports, order)
      decreases maxPages - |visited|, |toVisit|
    {
      var crash;
      crash, visited, toVisit, discovered, reports, order :=
        CrawlStep(web, seed, maxPages, visited, toVisit, discovered, reports, order);
      if crash.Some? {
        return Crashed(crash.value), order;
      }
    }
    LoopEnd(web, seed, maxPages, visited, toVisit, discovered, reports, order);
    outcome := Finished(reports, discovered);
  }

  /** The discovered links are internal links of the reports, and every internal link was visited or discovered. */
  lemma {:induction false} DiscoveredWithin(reports: seq<SeoReport>, order: seq<Url>)
    requires |reports| == |order|
    ensures Discovered(reports, order) <= AllInternal(reports)
    ensures AllInternal(reports) <= Elems(order) + Discovered(reports, order)
    decreases |order|
  {
    if order != [] {
      var n := |order| - 1;
      DiscoveredWithin(reports[..n], order[..n]);
      assert reports[..n] == reports[..|reports| - 1];
      assert Elems(order[..n]) <= Elems(order) by {
        forall u | u in Elems(order[..n]) ensures u in Elems(order) {
          var k :| 0 <= k < n && order[..n][k] == u;
          assert order[k] == u;
        }
      }
    }
  }

  /** A link discovered after the first `k` pages stays discovered. */
  lemma {:induction false} DiscoveredGrows(reports: seq<SeoReport>, order: seq<Url>, k: nat)
    requires |reports| == |order| && k <= |order|
    ensures Discovered(reports[..k], order[..k]) <= Discovered(reports, order)
    decreases |order|
  {
    if k < |order| {
      var n := |order| - 1;
      DiscoveredGrows(reports[..n], order[..n], k);
      assert reports[..n][..k] == reports[..k] && order[..n][..k] == order[..k];
    } else {
      assert reports[..k] == reports && order[..k] == order;
    }
  }

  /**
   * On a finished crawl the number of reports is the number of distinct pages
   * visited, and it never exceeds the budget (nothing is visited when the
   * budget is not positive).
   */
  lemma RunBounded(web: Web, seed: Url, maxPages: int, reports: seq<SeoReport>, discovered: set<Url>, order: seq<Url>)
    requires IsRun(web, seed, maxPages, reports, discovered, order)
    ensures |reports| == |Elems(order)|
    ensures |reports| <= if maxPages < 0 then 0 else maxPages
  {
    DistinctCard(order);
  }

  /**
   * On a finished crawl every visited page is the seed or a discovered link,
   * and every discovered link is an internal link of some report.
   */
  lemma VisitedWereDiscovered(web: Web, seed: Url, maxPages: int, reports: seq<SeoReport>, discovered: set<Url>, order: seq<Url>)
    requires IsRun(web, seed, maxPages, reports, discovered, order)
    ensures Elems(order) <= {seed} + discovered
    ensures discovered <= AllInternal(reports)
  {
    DiscoveredWithin(reports, order);
    forall u | u in Elems(order) ensures u in {seed} + discovered {
      var i :| 0 <= i < |order| && order[i] == u;
      if i > 0 {
        assert u in Discovered(reports[..i], order[..i]);
        DiscoveredGrows(reports, order, i);
      }
    }
  }

  /**
   * A finished crawl that did not use up its budget is closed under links:
   * every internal link of every report, and the seed, was visited or could
   * not be fetched.
   */
  lemma Closure(web: Web, seed: Url, maxPages: int, reports: seq<SeoReport>, discovered: set<Url>, order: seq<Url>)
    requires IsRun(web, seed, maxPages, reports, discovered, order)
    requires |order| < maxPages
    ensures forall u :: u == seed || u in AllInternal(reports) ==> u in order || !FetchOk(web, u)
  {
    DiscoveredWithin(reports, order);
  }
}
