# Site audit crawler — a Dafny model

This project models the site-audit part of `scraper/similarweb_scraper.py`:

- **the crawl loop** `crawl_website`: a frontier set, a visited set and a page budget; it visits one page at a time and collects one SEO report per page;
- **the per-page audit** `parse_seo_metrics` together with the status rule of `fetch_page`:
  - the page-level fields (title, meta description, headings, viewport, images, canonical link, structured data);
  - the link loop, which files every anchor as internal or external by netloc and marks it broken by the outcome of a HEAD probe;
- **the accessibility heuristics** `check_accessibility`: ARIA roles, unlabelled form controls, skip links, missing `tabindex`, and the substring-based contrast test. Each list is replaced by a fixed message when it is empty.

The network and the HTML parser are oracles, gathered in the `Web` value of `Crawler`:

- the outcome of the GET of every URL;
- the parse of every HTML text into a `Page`;
- `urljoin`;
- the outcome of the HEAD probe of every URL.

A parsed page is its list of elements in document order. Each element carries:

- its name and attributes;
- its text as `get_text(strip=True)` gives it (each text piece stripped, the pieces joined with no separator) and its `.string`;
- the number of `form` elements that enclose it;
- whether an earlier sibling is a `label`.

The netloc comparison is modelled exactly. `UrlSplit.Netloc` extracts the netloc the way Python's `urlsplit` does: it strips leading C0 controls and spaces, deletes tab, CR and LF, removes a scheme, and takes the authority of section 3.2 of RFC 3986 verbatim.

Modules, one per file:

- `Wrappers`: `Option` and `Result`.
- `Seqs`: the comprehension `[pick(x) for x in xs if keep(x)]`, `find`, elements of a sequence.
- `Strings`: ASCII lower-casing and substring search.
- `UrlSplit`: netloc extraction.
- `Html`: the parsed page.
- `Accessibility`: `check_accessibility`.
- `PageAudit`: `fetch_page` and `parse_seo_metrics`.
- `Crawler`: `crawl_website`.

The imperative parts are methods, each proved against a function that specifies it:

- `PageAudit.ClassifyLinks` is the link loop. It is proved equal to `PageAudit.Links`, which states the three link sets as set comprehensions over the resolved links.
- `PageAudit.ParseSeoMetrics` is the audit. It is proved equal to `PageAudit.SeoMetrics`.
- `Crawler.CrawlWebsite` is the crawl loop, with `:|` for `set.pop()`. It returns a ghost visit order and is proved to be a run in the sense of `Crawler.IsRun`.

A `KeyError` raised by the audit ends the crawl. The model returns it as `Crashed`, and proves that the page whose audit raised was reached by a run within the budget and not yet visited (`Crawler.CrashedAt`). One pass of the loop is the method `Crawler.CrawlStep`.

### Behaviour of the code worth knowing

- **Visited and frontier may overlap.** A page that links to itself is queued again before it is marked visited, and line 320 skips it when it is popped later. The loop state in `Crawler.LoopState` does not require the two sets to be disjoint.
- **A KeyError aborts the whole crawl.** A `KeyError` propagates out of `crawl_website`, and the reports gathered so far are lost. It is raised for a description `meta` without `content`, an image without `alt` and without `src`, or a canonical `link` without `href`.
- **A report holds no URL and no latency.** The dictionary built for a page has neither, because `load_time` is discarded.
- **Discovered links are only printed.** `all_internal_links` is printed, and only the reports are returned. The model returns the set as `discovered` in place of the print.
- **Any earlier `label` sibling counts**, not only the one immediately before the control.
- **Controls are counted per enclosing form.** Controls outside every form are not counted, and a control inside nested forms is counted once per form.
- **An empty `aria-label` counts as missing.**
- **The contrast test is a substring test.** It checks for `"#ffffff"` anywhere in the lower-cased inline style, not for a white background.
- **`raise_for_status` rejects only statuses 400 to 599.**
- **The canonical default is `"No Canonical Tag Found"`.**
- **The title can be absent.** It is `.string` of the first `title`, which is None when that element does not have exactly one text child.

## Model

| member | source | states |
|---|---|---|
| UrlSplit.LStripSpec | scraper/similarweb_scraper.py:243 | urlsplit first removes a prefix of C0 controls and spaces and stops at the first other character |
| UrlSplit.RemoveUnsafeSpec | scraper/similarweb_scraper.py:243 | deleting tab, CR and LF leaves none of them, and leaves a string without them unchanged |
| UrlSplit.IndexOfSpec | scraper/similarweb_scraper.py:243 | the scheme separator is the first ':' of the URL; None exactly when there is no ':' |
| UrlSplit.AfterSchemeSuffix | scraper/similarweb_scraper.py:243 | removing the scheme leaves a suffix of the URL |
| UrlSplit.TakeAuthoritySpec | scraper/similarweb_scraper.py:243 | the authority is the longest prefix without '/', '?' or '#' |
| UrlSplit.NetlocChars | scraper/similarweb_scraper.py:243 | a netloc holds no '/', '?', '#', tab, CR or LF |
| UrlSplit.TakeAuthorityOf | scraper/similarweb_scraper.py:243 | the authority ends exactly where the first '/', '?' or '#' begins |
| UrlSplit.IndexOfColon | scraper/similarweb_scraper.py:243 | in `scheme:rest` the first ':' is the one after the scheme |
| UrlSplit.AfterSchemeOf | scraper/similarweb_scraper.py:243 | a well-formed scheme and its ':' are removed, whatever follows |
| UrlSplit.NetlocOfAbsolute | scraper/similarweb_scraper.py:243-245 | the netloc of `scheme://authority/...` is the authority verbatim (userinfo, port and case kept), so the comparison is exact |
| UrlSplit.NetlocSameHost | scraper/similarweb_scraper.py:243-245 | netloc of http://same-host/path is "same-host" |
| UrlSplit.NetlocOtherHost | scraper/similarweb_scraper.py:243-245 | netloc of http://other-host/ is "other-host" |
| UrlSplit.NetlocSameHostRoot | scraper/similarweb_scraper.py:237 | netloc of http://same-host/ is "same-host" |
| PageAudit.FetchPage | scraper/similarweb_scraper.py:204-213 | no HTML exactly when the request raised or the status is 400 to 599; otherwise the body |
| PageAudit.Title | scraper/similarweb_scraper.py:219 | the default without a `title`, else `.string` of the first `title` |
| PageAudit.MetaDescription | scraper/similarweb_scraper.py:221-222 | the default without a description `meta`; the first one's `content`, or KeyError("content") when it has none |
| PageAudit.Headings | scraper/similarweb_scraper.py:224-228 | the keys are exactly h1 to h6, whether or not such headings occur |
| PageAudit.HeadingsMembers | scraper/similarweb_scraper.py:224-228 | each level lists exactly the texts of that level's elements |
| PageAudit.MobileFriendly | scraper/similarweb_scraper.py:230-231 | true exactly when some `meta` is named viewport |
| PageAudit.ImagesWithoutAlt | scraper/similarweb_scraper.py:266-269 | KeyError("src") exactly when an image without a non-empty `alt` has no `src`; otherwise the `src` of those images in document order |
| PageAudit.Canonical | scraper/similarweb_scraper.py:271-272 | the default without a canonical `link`; the first one's `href`, or KeyError("href") when it has none |
| PageAudit.StructuredDataPresent | scraper/similarweb_scraper.py:274-275 | true exactly when some `script` has type application/ld+json |
| PageAudit.Anchors | scraper/similarweb_scraper.py:239 | the anchors are exactly the `a` elements with an `href`, one per such element |
| PageAudit.ClassifyLinks | scraper/similarweb_scraper.py:233-261 | the loop computes the internal, external and broken sets and the anchor texts that `Links` states as comprehensions |
| PageAudit.LinkPartition | scraper/similarweb_scraper.py:242-259 | every resolved link is in exactly one of the internal and external sets, internal iff its netloc equals the page's; total = number of distinct resolved links |
| PageAudit.BrokenRule | scraper/similarweb_scraper.py:250-255 | a link is broken iff its probe raised or answered 400 or more (2xx and 3xx are not broken); broken links are resolved links |
| PageAudit.AnchorTextsFollowAnchors | scraper/similarweb_scraper.py:239-241 | one anchor text per anchor with `href`, in document order; an `a` without `href` adds none |
| PageAudit.ThreeAnchorsAnchors | scraper/similarweb_scraper.py:239 | an `a` without `href` is not among the anchors |
| PageAudit.ThreeAnchorPage | scraper/similarweb_scraper.py:239-248 | a page with a same-netloc link, an other-netloc link and an `a` without `href` has one internal link, one external link and two anchor texts |
| PageAudit.SameHostExample | scraper/similarweb_scraper.py:242-248 | from http://same-host/, http://same-host/path is internal and http://other-host/ is external |
| PageAudit.BrokenExample | scraper/similarweb_scraper.py:250-255 | links answering 200, 404 and a raised probe: exactly the last two are broken |
| PageAudit.ParseSeoMetrics | scraper/similarweb_scraper.py:215-279 | the audit of a page, with the KeyError of the first failing lookup, equals `SeoMetrics` |
| PageAudit.SeoMetricsFails | scraper/similarweb_scraper.py:221-272 | the audit fails exactly when the first description `meta` lacks `content`, an image without `alt` lacks `src`, or the first canonical `link` lacks `href` |
| PageAudit.ReportLinks | scraper/similarweb_scraper.py:257-261 | the report's total is the number of distinct resolved links, its internal and external sets partition them, broken links are among them, it has one anchor text per anchor, and its accessibility part is `check_accessibility` of the page |
| Accessibility.OrMessage | scraper/similarweb_scraper.py:285 | a list becomes its message exactly when it is empty, and its entries are kept otherwise |
| Accessibility.AriaRoles | scraper/similarweb_scraper.py:284 | the roles are exactly the `role` values present on elements, one per element carrying one |
| Accessibility.FormsMissingLabels | scraper/similarweb_scraper.py:287-294 | zero exactly when no control without label or non-empty aria-label lies inside a form |
| Accessibility.FormsMissingLabelsAppend | scraper/similarweb_scraper.py:287-294 | the count adds up over consecutive parts of the page |
| Accessibility.LabelRemovesControl | scraper/similarweb_scraper.py:291 | adding an earlier `label` sibling, or a non-empty `aria-label`, to an unlabelled control lowers the count by its number of enclosing forms |
| Accessibility.SkipLinks | scraper/similarweb_scraper.py:296 | the skip links are exactly the hrefs whose lower-cased text contains "skip", one per such anchor |
| Accessibility.MissingTabindex | scraper/similarweb_scraper.py:299 | only a, button and input are listed, and every such element without a `tabindex` attribute is listed |
| Accessibility.ContrastIssues | scraper/similarweb_scraper.py:302-306 | exactly the names of elements whose lower-cased style contains "color" and "background" but not "#ffffff" |
| Accessibility.CheckAccessibility | scraper/similarweb_scraper.py:281-310 | each list shows its message exactly when no element qualifies, else the entries of its filter; the label count is the number of unlabelled controls |
| Accessibility.AccessibilityAppend | scraper/similarweb_scraper.py:284-308 | every list and the count split along the document |
| Crawler.QueueUnvisited | scraper/similarweb_scraper.py:331-334 | exactly the page's internal links not yet visited join the frontier and the discovered set |
| Crawler.CrawlWebsite | scraper/similarweb_scraper.py:312-342 | the reports are those of a run (`IsRun`): distinct pages, seed first, each later page discovered earlier, each page fetched and audited, within the budget, closed under links unless the budget ran out; or, within the budget, the KeyError of an unvisited fetchable page the crawl reached (the seed or a discovered link) after a run `order` (`CrashedAt`) |
| Crawler.CrawlStep | scraper/similarweb_scraper.py:318-336 | one pass of the loop either keeps the loop state with a smaller measure (one more page visited, or one URL fewer queued) or stops with the KeyError of a reached, unvisited page |
| Crawler.CrashStep | scraper/similarweb_scraper.py:328 | auditing a queued, unvisited, fetchable page whose audit raises ends the crawl at a page the run reached, within the budget |
| Crawler.LoopStart | scraper/similarweb_scraper.py:313-316 | the initial state is a loop state |
| Crawler.SkipStep | scraper/similarweb_scraper.py:319-326 | a popped URL already visited, or whose fetch fails or is empty, is dropped without a report and without marking it visited |
| Crawler.VisitStep | scraper/similarweb_scraper.py:328-336 | a visit appends one report, marks the page visited, and queues its unvisited internal links, keeping the loop state |
| Crawler.DiscoveredSnoc | scraper/similarweb_scraper.py:331-334 | a visit adds to the discovered links exactly its internal links that were not visited |
| Crawler.DiscoveredFirstSnoc | scraper/similarweb_scraper.py:331-336 | a page queued by an earlier visit keeps being one discovered before it is visited |
| Crawler.AuditedSnoc | scraper/similarweb_scraper.py:324-329 | each report remains the audit of its fetched page |
| Crawler.LoopEnd | scraper/similarweb_scraper.py:318 | when the frontier is empty or the budget is spent, the state is a finished run |
| Crawler.RunBounded | scraper/similarweb_scraper.py:318-336 | the number of reports equals the number of distinct visited pages and never exceeds the budget (zero for a budget below one) |
| Crawler.DiscoveredWithin | scraper/similarweb_scraper.py:331-334 | discovered links are internal links of the reports, and every internal link was visited or discovered |
| Crawler.DiscoveredGrows | scraper/similarweb_scraper.py:334 | the discovered set only grows as pages are visited |
| Crawler.VisitedWereDiscovered | scraper/similarweb_scraper.py:314-336 | every visited page is the seed or a discovered link, and every discovered link is an internal link of some report |
| Crawler.Closure | scraper/similarweb_scraper.py:318-334 | unless the budget ran out, the seed and every internal link of every report were visited or could not be fetched |

## Left out

- Browser automation (`setup_selenium`, `wait_for_element`, every `scrape_*` function), `save_results_to_json` and `main`: they drive a browser or the file system and hold no audit logic.
- The timing of `fetch_page` (`load_time`): it is wall-clock floating point, and the crawl discards it.
- HTTP itself: each GET and each HEAD probe is an oracle (`Web.get`, `Web.probe`). An oracle gives the same answer for the same URL every time, so a link probed twice in one page is modelled as probed once.
- HTML parsing and word counting: they are oracles (`Web.parse`, `Page.wordCount`), and a page is modelled as its element list.
- How an element list is built is not modelled: enclosing forms, earlier siblings and `.string` are facts the parser supplies.
- `urljoin` is the oracle `Web.resolve`. Relative references are not resolved in the model.
- A `ValueError` from `urljoin` (line 242) or from `urlparse` (lines 237 and 243) is not modelled. In the source it leaves `parse_seo_metrics` and aborts the whole crawl, as a `KeyError` does. In the model `Web.resolve` and `UrlSplit.Netloc` always give a value, so neither can fail.
- `rel` of a `link` is one string in the model. BeautifulSoup treats it as a list of tokens, so `rel="canonical nofollow"` matching `canonical` is not modelled.
- `Strings.Lower` lower-cases ASCII letters only. Python's `str.lower` also folds other letters.
- `UrlSplit.Netloc` does not model four urlsplit details:
  - the `ValueError` urlsplit raises for an unbalanced '[' or ']' in the netloc;
  - the `ValueError` CPython 3.12's `_check_bracketed_host` raises for a bracketed host that is not an IPv6 or IPvFuture address, as in `http://[example]/`;
  - NFKC checks on non-ASCII netlocs;
  - its caching.
- The model returns `all_internal_links` as `discovered` instead of printing it. Progress logging and the sorted dump of `print` are left out.
- The order in which `list(set)` lists the internal, external and broken links is left out: the report keeps them as sets.
- Crawler.CrawlWebsite: the choice made by `set.pop()` is arbitrary in the model (`:|`). The contract holds for every choice, but it does not say which run CPython's set order produces.
