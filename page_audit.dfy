/**
 * The audit of one fetched page (`parse_seo_metrics` and the status rule of
 * `fetch_page`): page-level defaults, the classification of every anchor as
 * internal or external, the broken-link rule, and the accessibility report.
 * The HTTP requests are oracles: the outcome of the page's GET and, for every
 * resolved link, the outcome of its HEAD probe. URL resolution (`urljoin`) is
 * an oracle `resolve` too; the netloc comparison is modelled exactly.
 */
module PageAudit {
  import opened Wrappers
  import opened Seqs
  import opened UrlSplit
  import opened Html
  import opened Accessibility

  type Url = string

  const NoTitle := "No Title Found"
  const NoMetaDescription := "No Meta Description Found"
  const NoCanonical := "No Canonical Tag Found"
  const HeadingNames: set<string> := {"h1", "h2", "h3", "h4", "h5", "h6"}

  /** The outcome of `requests.get`: a response, or an exception of the request. */
  datatype HttpOutcome = Response(status: int, body: string) | RequestFailed

  /**
   * `fetch_page` without its timing: the body, or None when the request raised
   * or `raise_for_status` rejects the status (400 to 599).
   */
  function FetchPage(outcome: HttpOutcome): (html: Option<string>)
    ensures html.None? <==> outcome.RequestFailed? || 400 <= outcome.status < 600
    ensures html.Some? ==> html.value == outcome.body
  {
    match outcome
    case RequestFailed => None
    case Response(status, body) => if 400 <= status < 600 then None else Some(body)
  }

  /** The outcome of `requests.head(url, timeout=5)`: a status, or an exception of the request. */
  datatype ProbeResult = Status(code: int) | ProbeFailed

  /** The broken-link rule: the probe raised, or answered with a status of 400 or more. */
  predicate IsBroken(p: ProbeResult)
  {
    p.ProbeFailed? || p.code >= 400
  }

  /** The `KeyError` raised when a matched element lacks the attribute the audit reads. */
  datatype KeyError = KeyError(key: string)

  /** The links of one page, as the link loop leaves them. */
  datatype LinkReport = LinkReport(
    internal: set<Url>,
    external: set<Url>,
    broken: set<Url>,
    anchorTexts: seq<string>)

  /** The audit of one page. The source's dictionary holds no URL of the page. */
  datatype SeoReport = SeoReport(
    title: Option<string>,
    metaDescription: string,
    headings: map<string, seq<string>>,
    mobileFriendly: bool,
    internalLinks: set<Url>,
    externalLinks: set<Url>,
    totalLinks: nat,
    brokenLinks: set<Url>,
    anchorTexts: seq<string>,
    totalWordCount: nat,
    totalImages: nat,
    imagesWithoutAlt: seq<string>,
    canonical: string,
    structuredDataPresent: bool,
    accessibility: AccessibilityReport)

  function Itself(t: Tag): Tag { t }

  function Text(t: Tag): string { t.text }

  predicate IsTitle(t: Tag) { t.name == "title" }

  /** `soup.title.string`, or the default when the page has no `title` element. */
  function Title(tags: seq<Tag>): (r: Option<string>)
    ensures (forall t :: t in tags ==> !IsTitle(t)) ==> r == Some(NoTitle)
    ensures forall i :: IsFirst(tags, i, IsTitle) ==> r == tags[i].soleString
  {
    match FindFirst(tags, IsTitle)
    case None => Some(NoTitle)
    case Some(i) => tags[i].soleString
  }

  predicate IsDescriptionMeta(t: Tag) { NamedWith(t, "meta", "name", "description") }

  /** The `content` of the first description `meta`, the default without one, a KeyError without `content`. */
  function MetaDescription(tags: seq<Tag>): (r: Result<string, KeyError>)
    ensures (forall t :: t in tags ==> !IsDescriptionMeta(t)) ==> r == Ok(NoMetaDescription)
    ensures forall i :: IsFirst(tags, i, IsDescriptionMeta) ==>
      r == if "content" in tags[i].attrs then Ok(tags[i].attrs["content"]) else Err(KeyError("content"))
  {
    match FindFirst(tags, IsDescriptionMeta)
    case None => Ok(NoMetaDescription)
    case Some(i) =>
      if "content" in tags[i].attrs then Ok(tags[i].attrs["content"]) else Err(KeyError("content"))
  }

  /** The filter of `soup.find_all(level)`: the elements named `level`. */
  function NamedTag(level: string): Tag -> bool
  {
    (t: Tag) => t.name == level
  }

  /** The texts of the `h1` to `h6` elements, per level, in document order; every level is present. */
  function Headings(tags: seq<Tag>): (r: map<string, seq<string>>)
    ensures r.Keys == HeadingNames
  {
    map level | level in HeadingNames :: Select(tags, NamedTag(level), Text)
  }

  /** Each level lists exactly the texts of the elements of that level. */
  lemma HeadingsMembers(tags: seq<Tag>)
    ensures var r := Headings(tags);
      forall level, s :: level in r ==> (s in r[level] <==> exists t :: t in tags && t.name == level && t.text == s)
  {
    forall level | level in HeadingNames {
      SelectMembers(tags, NamedTag(level), Text);
    }
  }

  /** `bool(soup.find('meta', attrs={'name': 'viewport'}))`. */
  function MobileFriendly(tags: seq<Tag>): (r: bool)
    ensures r <==> exists t :: t in tags && NamedWith(t, "meta", "name", "viewport")
  {
    FindFirst(tags, (t: Tag) => NamedWith(t, "meta", "name", "viewport")).Some?
  }

  predicate IsImage(t: Tag) { t.name == "img" }

  /** An image whose `alt` is missing or empty. */
  predicate LacksAlt(t: Tag) { IsImage(t) && !HasValue(t, "alt") }

  function Src(t: Tag): string { GetOr(t, "src", "") }

  /**
   * The `src` of every image without a non-empty `alt`, in document order, or the
   * KeyError raised by the first such image that has no `src`.
   */
  function ImagesWithoutAlt(tags: seq<Tag>): (r: Result<seq<string>, KeyError>)
    ensures r.Err? <==> exists t :: t in tags && LacksAlt(t) && "src" !in t.attrs
    ensures r.Err? ==> r.error == KeyError("src")
    ensures r.Ok? ==> r.value == Select(tags, LacksAlt, Src)
    decreases |tags|
  {
    if tags == [] then Ok([])
    else
      var t := tags[0];
      assert forall x :: x in tags <==> x == t || x in tags[1..];
      if LacksAlt(t) && "src" !in t.attrs then Err(KeyError("src"))
      else match ImagesWithoutAlt(tags[1..])
        case Err(e) => Err(e)
        case Ok(rest) => Ok((if LacksAlt(t) then [t.attrs["src"]] else []) + rest)
  }

  predicate IsCanonicalLink(t: Tag) { NamedWith(t, "link", "rel", "canonical") }

  /** The `href` of the first canonical `link`, the default without one, a KeyError without `href`. */
  function Canonical(tags: seq<Tag>): (r: Result<string, KeyError>)
    ensures (forall t :: t in tags ==> !IsCanonicalLink(t)) ==> r == Ok(NoCanonical)
    ensures forall i :: IsFirst(tags, i, IsCanonicalLink) ==>
      r == if "href" in tags[i].attrs then Ok(tags[i].attrs["href"]) else Err(KeyError("href"))
  {
    match FindFirst(tags, IsCanonicalLink)
    case None => Ok(NoCanonical)
    case Some(i) =>
      if "href" in tags[i].attrs then Ok(tags[i].attrs["href"]) else Err(KeyError("href"))
  }

  /** `bool(soup.find_all('script', type='application/ld+json'))`. */
  function StructuredDataPresent(tags: seq<Tag>): (r: bool)
    ensures r <==> exists t :: t in tags && NamedWith(t, "script", "type", "application/ld+json")
  {
    Count(tags, (t: Tag) => NamedWith(t, "script", "type", "application/ld+json")) > 0
  }

  /** `soup.find_all('a', href=True)`: the anchors, in document order. */
  function Anchors(tags: seq<Tag>): (r: seq<Tag>)
    ensures |r| == Count(tags, IsAnchor)
    ensures forall a :: a in r <==> a in tags && IsAnchor(a)
  {
    SelectLength(tags, IsAnchor, Itself);
    SelectMembers(tags, IsAnchor, Itself);
    Select(tags, IsAnchor, Itself)
  }

  /** `urljoin(base_url, href)` for every anchor, in document order. */
  function Resolved(anchors: seq<Tag>, base: Url, resolve: (Url, string) -> Url): (r: seq<Url>)
    ensures |r| == |anchors|
    ensures forall i :: 0 <= i < |r| ==> r[i] == resolve(base, Href(anchors[i]))
  {
    seq(|anchors|, i requires 0 <= i < |anchors| => resolve(base, Href(anchors[i])))
  }

  /** `link.get_text(strip=True)` for every anchor, in document order. */
  function TextsOf(anchors: seq<Tag>): (r: seq<string>)
    ensures |r| == |anchors|
    ensures forall i :: 0 <= i < |r| ==> r[i] == anchors[i].text
  {
    seq(|anchors|, i requires 0 <= i < |anchors| => anchors[i].text)
  }

  /** Internal means: the netloc of the resolved link equals the netloc of the page, exactly. */
  predicate SameSite(u: Url, base: Url)
  {
    Netloc(u) == Netloc(base)
  }

  /** The resolved links that are internal to the site of `base`. */
  function InternalOf(urls: seq<Url>, base: Url): set<Url>
  {
    set u | u in urls && SameSite(u, base)
  }

  /** The resolved links that are external to the site of `base`. */
  function ExternalOf(urls: seq<Url>, base: Url): set<Url>
  {
    set u | u in urls && !SameSite(u, base)
  }

  /** The resolved links whose probe says they are broken. */
  function BrokenOf(urls: seq<Url>, probe: Url -> ProbeResult): set<Url>
  {
    set u | u in urls && IsBroken(probe(u))
  }

  /** The internal links grow by the next link exactly when it is internal. */
  lemma InternalSnoc(urls: seq<Url>, u: Url, base: Url)
    ensures InternalOf(urls + [u], base) == InternalOf(urls, base) + (if SameSite(u, base) then {u} else {})
  {
    assert forall x :: x in urls + [u] <==> x in urls || x == u;
  }

  /** The external links grow by the next link exactly when it is external. */
  lemma ExternalSnoc(urls: seq<Url>, u: Url, base: Url)
    ensures ExternalOf(urls + [u], base) == ExternalOf(urls, base) + (if SameSite(u, base) then {} else {u})
  {
    assert forall x :: x in urls + [u] <==> x in urls || x == u;
  }

  /** The broken links grow by the next link exactly when its probe says it is broken. */
  lemma BrokenSnoc(urls: seq<Url>, u: Url, probe: Url -> ProbeResult)
    ensures BrokenOf(urls + [u], probe) == BrokenOf(urls, probe) + (if IsBroken(probe(u)) then {u} else {})
  {
    assert forall x :: x in urls + [u] <==> x in urls || x == u;
  }

  /** Filing the link of anchor `i` extends each set by that link when the link belongs there. */
  lemma FileNext(anchors: seq<Tag>, urls: seq<Url>, i: nat, base: Url, probe: Url -> ProbeResult)
    requires i < |anchors| == |urls|
    ensures TextsOf(anchors)[..i + 1] == TextsOf(anchors)[..i] + [anchors[i].text]
    ensures InternalOf(urls[..i + 1], base) == InternalOf(urls[..i], base) + (if SameSite(urls[i], base) then {urls[i]} else {})
    ensures ExternalOf(urls[..i + 1], base) == ExternalOf(urls[..i], base) + (if SameSite(urls[i], base) then {} else {urls[i]})
    ensures BrokenOf(urls[..i + 1], probe) == BrokenOf(urls[..i], probe) + (if IsBroken(probe(urls[i])) then {urls[i]} else {})
  {
    assert urls[..i + 1] == urls[..i] + [urls[i]];
    InternalSnoc(urls[..i], urls[i], base);
    ExternalSnoc(urls[..i], urls[i], base);
    BrokenSnoc(urls[..i], urls[i], probe);
  }

  /**
   * What the link loop computes, stated as sets over the resolved links: the
   * internal links, the external links, the broken links, and one text per anchor.
   */
  function Links(tags: seq<Tag>, base: Url, resolve: (Url, string) -> Url, probe: Url -> ProbeResult): LinkReport
  {
    var anchors := Anchors(tags);
    var urls := Resolved(anchors, base, resolve);
    LinkReport(
      InternalOf(urls, base),
      ExternalOf(urls, base),
      BrokenOf(urls, probe),
      TextsOf(anchors))
  }

  /**
   * The link loop: for each anchor, record its text, resolve its `href`, file the
   * result as internal or external by netloc, and probe it for the broken-link rule.
   */
  method ClassifyLinks(tags: seq<Tag>, base: Url, resolve: (Url, string) -> Url, probe: Url -> ProbeResult)
    returns (links: LinkReport)
    ensures links == Links(tags, base, resolve, probe)
  {
    var anchors := Anchors(tags);
    ghost var urls := Resolved(anchors, base, resolve);
    var baseNetloc := Netloc(base);
    var internal: set<Url> := {};
    var external: set<Url> := {};
    var broken: set<Url> := {};
    var anchorTexts: seq<string> := [];
    var i := 0;
    while i < |anchors|
      invariant 0 <= i <= |anchors|
      invariant anchorTexts == TextsOf(anchors)[..i]
      invariant internal == InternalOf(urls[..i], base)
      invariant external == ExternalOf(urls[..i], base)
      invariant broken == BrokenOf(urls[..i], probe)
    {
      var link := anchors[i];
      FileNext(anchors, urls, i, base, probe);
      anchorTexts := anchorTexts + [link.text];
      var fullUrl := resolve(base, Href(link));
      if Netloc(fullUrl) == baseNetloc {
        internal := internal + {fullUrl};
      } else {
        external := external + {fullUrl};
      }
      match probe(fullUrl) {
        case ProbeFailed =>
          broken := broken + {fullUrl};
        case Status(code) =>
          if code >= 400 {
            broken := broken + {fullUrl};
          }
      }
      i := i + 1;
    }
    assert urls[..i] == urls;
    assert TextsOf(anchors)[..i] == TextsOf(anchors);
    links := LinkReport(internal, external, broken, anchorTexts);
  }

  /** Every resolved link is filed in exactly one of the internal and external sets, by netloc. */
  lemma LinkPartition(tags: seq<Tag>, base: Url, resolve: (Url, string) -> Url, probe: Url -> ProbeResult)
    ensures var links := Links(tags, base, resolve, probe);
      var urls := Resolved(Anchors(tags), base, resolve);
      && links.internal !! links.external
      && links.internal + links.external == Elems(urls)
      && |links.internal| + |links.external| == |Elems(urls)|
      && (forall u :: u in links.internal ==> Netloc(u) == Netloc(base))
      && (forall u :: u in links.external ==> Netloc(u) != Netloc(base))
  {
    var links := Links(tags, base, resolve, probe);
    var urls := Resolved(Anchors(tags), base, resolve);
    assert links.internal * links.external == {};
    assert links.internal + links.external == Elems(urls);
  }

  /**
   * A link is broken exactly when its probe raised or answered 400 or more, so a
   * 2xx or 3xx answer never makes it broken; broken links are resolved links.
   */
  lemma BrokenRule(tags: seq<Tag>, base: Url, resolve: (Url, string) -> Url, probe: Url -> ProbeResult)
    ensures var links := Links(tags, base, resolve, probe);
      && links.broken <= links.internal + links.external
      && forall u :: u in links.broken <==>
           u in Resolved(Anchors(tags), base, resolve) && match probe(u) { case ProbeFailed => true case Status(code) => code >= 400 }
  {
  }

  /** The texts of consecutive runs of anchors are consecutive. */
  lemma TextsOfAppend(a: seq<Tag>, b: seq<Tag>)
    ensures TextsOf(a + b) == TextsOf(a) + TextsOf(b)
  {
    var l, r := TextsOf(a + b), TextsOf(a) + TextsOf(b);
    assert |l| == |r|;
    forall i | 0 <= i < |l| ensures l[i] == r[i] {
      if i < |a| {
        assert (a + b)[i] == a[i];
      } else {
        assert (a + b)[i] == b[i - |a|];
      }
    }
  }

  /**
   * One anchor text per anchor with an `href`, in document order: an element
   * contributes its text exactly when it is an anchor with an `href`.
   */
  lemma AnchorTextsFollowAnchors(before: seq<Tag>, t: Tag, after: seq<Tag>)
    ensures |TextsOf(Anchors(before + [t] + after))| == Count(before + [t] + after, IsAnchor)
    ensures TextsOf(Anchors(before + [t] + after))
         == TextsOf(Anchors(before)) + (if IsAnchor(t) then [t.text] else []) + TextsOf(Anchors(after))
  {
    SelectAppend(before + [t], after, IsAnchor, Itself);
    SelectAppend(before, [t], IsAnchor, Itself);
    SelectOne(t, IsAnchor, Itself);
    var a := Anchors(before);
    var b := Anchors(after);
    var mid: seq<Tag> := if IsAnchor(t) then [t] else [];
    assert Anchors(before + [t] + after) == a + mid + b;
    TextsOfAppend(a + mid, b);
    TextsOfAppend(a, mid);
    assert TextsOf(mid) == if IsAnchor(t) then [t.text] else [];
  }

  /** A page with an anchor to `inside`, one to `outside` and one without `href`. */
  function ThreeAnchors(inside: Url, outside: Url): seq<Tag>
  {
    [Tag("a", map["href" := inside], "inside", None, 0, false),
     Tag("a", map["href" := outside], "outside", None, 0, false),
     Tag("a", map[], "nowhere", None, 0, false)]
  }

  /** The anchor without `href` is not an anchor of the page. */
  lemma ThreeAnchorsAnchors(inside: Url, outside: Url)
    ensures Anchors(ThreeAnchors(inside, outside)) == ThreeAnchors(inside, outside)[..2]
  {
    var tags := ThreeAnchors(inside, outside);
    var t1, t2, t3 := tags[0], tags[1], tags[2];
    assert IsAnchor(t1) && IsAnchor(t2) && !IsAnchor(t3);
    assert tags == [t1] + [t2] + [t3];
    SelectAppend([t1] + [t2], [t3], IsAnchor, Itself);
    SelectAppend([t1], [t2], IsAnchor, Itself);
    SelectOne(t1, IsAnchor, Itself);
    SelectOne(t2, IsAnchor, Itself);
    SelectOne(t3, IsAnchor, Itself);
    calc {
      Select(tags, IsAnchor, Itself);
      Select([t1] + [t2], IsAnchor, Itself) + Select([t3], IsAnchor, Itself);
      [t1] + [t2];
      tags[..2];
    }
  }

  /**
   * A page with an anchor to its own netloc, one to another netloc and one without
   * `href` has one internal link, one external link and two anchor texts.
   */
  lemma ThreeAnchorPage(base: Url, inside: Url, outside: Url, resolve: (Url, string) -> Url, probe: Url -> ProbeResult)
    requires Netloc(inside) == Netloc(base) && Netloc(outside) != Netloc(base)
    requires resolve(base, inside) == inside && resolve(base, outside) == outside
    ensures var links := Links(ThreeAnchors(inside, outside), base, resolve, probe);
      && links.internal == {inside}
      && links.external == {outside}
      && links.anchorTexts == ["inside", "outside"]
  {
    var tags := ThreeAnchors(inside, outside);
    ThreeAnchorsAnchors(inside, outside);
    var anchors := tags[..2];
    assert Resolved(anchors, base, resolve) == [inside, outside];
    assert TextsOf(anchors) == ["inside", "outside"];
    FileTwoLinks(base, inside, outside);
  }

  /** Of an internal and an external link, each is filed on its own side. */
  lemma FileTwoLinks(base: Url, inside: Url, outside: Url)
    requires SameSite(inside, base) && !SameSite(outside, base)
    ensures InternalOf([inside, outside], base) == {inside}
    ensures ExternalOf([inside, outside], base) == {outside}
  {
    InternalSnoc([inside], outside, base);
    InternalSnoc([], inside, base);
    ExternalSnoc([inside], outside, base);
    ExternalSnoc([], inside, base);
    assert [inside] == [] + [inside] && [inside, outside] == [inside] + [outside];
  }

  /** The concrete page: links to http://same-host/path and http://other-host/ seen from http://same-host/. */
  lemma SameHostExample(resolve: (Url, string) -> Url, probe: Url -> ProbeResult)
    requires resolve("http://same-host/", "http://same-host/path") == "http://same-host/path"
    requires resolve("http://same-host/", "http://other-host/") == "http://other-host/"
    ensures var links := Links(ThreeAnchors("http://same-host/path", "http://other-host/"), "http://same-host/", resolve, probe);
      && links.internal == {"http://same-host/path"}
      && links.external == {"http://other-host/"}
      && |links.anchorTexts| == 2
  {
    NetlocSameHost();
    NetlocOtherHost();
    NetlocSameHostRoot();
    ThreeAnchorPage("http://same-host/", "http://same-host/path", "http://other-host/", resolve, probe);
  }

  /** Three links answering 200, 404 and a timeout: exactly the last two are broken. */
  lemma BrokenExample(tags: seq<Tag>, base: Url, resolve: (Url, string) -> Url, probe: Url -> ProbeResult)
    requires Resolved(Anchors(tags), base, resolve) == ["http://a/ok", "http://a/missing", "http://a/slow"]
    requires probe("http://a/ok") == Status(200)
    requires probe("http://a/missing") == Status(404)
    requires probe("http://a/slow") == ProbeFailed
    ensures Links(tags, base, resolve, probe).broken == {"http://a/missing", "http://a/slow"}
  {
  }

  /**
   * `parse_seo_metrics` as a value: the report of the page, or the KeyError that the
   * first failing lookup raises (description, then images, then canonical link).
   */
  function SeoMetrics(page: Page, base: Url, resolve: (Url, string) -> Url, probe: Url -> ProbeResult)
    : Result<SeoReport, KeyError>
  {
    var tags := page.tags;
    match MetaDescription(tags)
    case Err(e) => Err(e)
    case Ok(description) =>
      var links := Links(tags, base, resolve, probe);
      match ImagesWithoutAlt(tags)
      case Err(e) => Err(e)
      case Ok(missingAlt) =>
        match Canonical(tags)
        case Err(e) => Err(e)
        case Ok(canonical) => Ok(Assemble(page, description, links, missingAlt, canonical))
  }

  /** The report's dictionary, once every lookup has succeeded. */
  function Assemble(page: Page, description: string, links: LinkReport, missingAlt: seq<string>, canonical: string)
    : SeoReport
  {
    var tags := page.tags;
    SeoReport(
      Title(tags), description, Headings(tags), MobileFriendly(tags),
      links.internal, links.external, |links.internal| + |links.external|,
      links.broken, links.anchorTexts, page.wordCount,
      Count(tags, IsImage), missingAlt, canonical,
      StructuredDataPresent(tags), CheckAccessibility(tags))
  }

  /** `parse_seo_metrics`: the page-level fields, the link loop, the images and the accessibility report. */
  method ParseSeoMetrics(page: Page, base: Url, resolve: (Url, string) -> Url, probe: Url -> ProbeResult)
    returns (r: Result<SeoReport, KeyError>)
    ensures r == SeoMetrics(page, base, resolve, probe)
  {
    var tags := page.tags;
    var description := MetaDescription(tags);
    if description.Err? {
      return Err(description.error);
    }
    var links := ClassifyLinks(tags, base, resolve, probe);
    var missingAlt := ImagesWithoutAlt(tags);
    if missingAlt.Err? {
      return Err(missingAlt.error);
    }
    var canonical := Canonical(tags);
    if canonical.Err? {
      return Err(canonical.error);
    }
    r := Ok(Assemble(page, description.value, links, missingAlt.value, canonical.value));
  }

  /**
   * The audit of a page fails exactly when a lookup raises: the first description
   * `meta` has no `content`, an image without `alt` has no `src`, or the first
   * canonical `link` has no `href`.
   */
  lemma SeoMetricsFails(page: Page, base: Url, resolve: (Url, string) -> Url, probe: Url -> ProbeResult)
    ensures SeoMetrics(page, base, resolve, probe).Err? <==>
      || (exists i :: IsFirst(page.tags, i, IsDescriptionMeta) && "content" !in page.tags[i].attrs)
      || (exists t :: t in page.tags && LacksAlt(t) && "src" !in t.attrs)
      || (exists i :: IsFirst(page.tags, i, IsCanonicalLink) && "href" !in page.tags[i].attrs)
  {
    var tags := page.tags;
    var d := FindFirst(tags, IsDescriptionMeta);
    if d.Some? {
      assert IsFirst(tags, d.value, IsDescriptionMeta);
      assert forall i :: IsFirst(tags, i, IsDescriptionMeta) ==> i == d.value;
    }
    var c := FindFirst(tags, IsCanonicalLink);
    if c.Some? {
      assert IsFirst(tags, c.value, IsCanonicalLink);
      assert forall i :: IsFirst(tags, i, IsCanonicalLink) ==> i == c.value;
    }
  }

  /**
   * A report counts its links as the number of distinct resolved links, files each
   * by netloc, and holds one anchor text per anchor with an `href`.
   */
  lemma ReportLinks(page: Page, base: Url, resolve: (Url, string) -> Url, probe: Url -> ProbeResult)
    requires SeoMetrics(page, base, resolve, probe).Ok?
    ensures var report := SeoMetrics(page, base, resolve, probe).value;
      var urls := Resolved(Anchors(page.tags), base, resolve);
      && report.totalLinks == |Elems(urls)|
      && report.internalLinks + report.externalLinks == Elems(urls)
      && report.internalLinks !! report.externalLinks
      && report.brokenLinks <= report.internalLinks + report.externalLinks
      && |report.anchorTexts| == Count(page.tags, IsAnchor)
      && report.accessibility == CheckAccessibility(page.tags)
  {
    var tags := page.tags;
    var links := Links(tags, base, resolve, probe);
    var report := Assemble(page, MetaDescription(tags).value, links, ImagesWithoutAlt(tags).value, Canonical(tags).value);
    assert SeoMetrics(page, base, resolve, probe).value == report;
    assert report.internalLinks == links.internal && report.externalLinks == links.external;
    assert report.brokenLinks == links.broken && report.anchorTexts == links.anchorTexts;
    LinkPartition(tags, base, resolve, probe);
    BrokenRule(tags, base, resolve, probe);
  }
}
