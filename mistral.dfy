/**
 * The wine catalogue crawler of mistral.py: a bounded page loop that
 * extracts (url, title) pairs from each page, keeps the ones whose title
 * looks like a wine, and finally removes repeated URLs.  The browser is
 * replaced by oracles: what each page holds, whether each pagination
 * locator can be clicked, and the page heights read while scrolling.
 */
module Mistral {
  import opened Common
  import opened Text
  import opened Urls

  datatype WineItem = WineItem(url: string, title: string)

  /**
   * A container whose class mentions a product: the text of its first
   * h2.title-card-showcase and the href of its first a[href], when present.
   */
  datatype ProductElement = ProductElement(title: Option<string>, href: Option<string>)

  /**
   * An h2.title-card-showcase of the page: its text, and for each of its
   * ancestors, nearest first, the href of the first a[href] inside it.
   */
  datatype TitleElement = TitleElement(text: string, ancestorLinks: seq<Option<string>>)

  /** What the parsed page offers the extraction, with the URL the browser shows. */
  datatype Page = Page(url: string, products: seq<ProductElement>, titles: seq<TitleElement>)

  // ---------------------------------------------------------------- URLs

  /**
   * The three-way URL rule of the extraction: an href spelled with a
   * leading "http" is kept, one starting with '/' is joined to the
   * scheme and host, any other is joined to the page URL.
   */
  function ResolveHref(baseDomain: string, currentUrl: string, href: string): string {
    if "http" <= href then href
    else if "/" <= href then Resolve(baseDomain, href)
    else Resolve(currentUrl, href)
  }

  /**
   * For a page URL with a scheme and a host, the three-way rule agrees
   * with a plain `urljoin` against the page URL, except for an href that
   * starts with "http" and that `urljoin` would not keep as written (one
   * without a scheme, such as "httpvinho.html", or with the page's scheme
   * and no host, such as "https:/vinho/x"), and for an empty host with
   * no path ("//"), which the rule joins to the scheme and host and
   * `urljoin` to the page URL.
   */
  lemma ResolveHrefIsUrljoin(currentUrl: string, href: string)
    requires Parse(currentUrl).scheme.Some? && Parse(currentUrl).authority.Some?
    requires "http" <= href ==> KeptAsWritten(Parse(currentUrl), Parse(href))
    requires "/" <= href ==> !EmptyNetworkPath(Parse(href))
    ensures ResolveHref(Origin(currentUrl), currentUrl, href) == Resolve(currentUrl, href)
  {
    if "http" <= href {
      ResolveAbsolute(currentUrl, href);
    } else if "/" <= href {
      OriginResolvesLikePage(currentUrl, href);
    }
  }

  /** An href with one leading '/' is appended to scheme://host. */
  lemma ResolveHrefRootRelative(currentUrl: string, href: string)
    requires Parse(currentUrl).scheme.Some? && Parse(currentUrl).authority.Some?
    requires href != [] && href[0] == '/' && !("//" <= href)
    ensures ResolveHref(Origin(currentUrl), currentUrl, href) == Origin(currentUrl) + href
  {
    var origin := Origin(currentUrl);
    assert !("http" <= href) && "/" <= href;
    assert ResolveHref(origin, currentUrl, href) == Resolve(origin, href);
    ParseOrigin(currentUrl);
    ConcatMatchesResolve(origin, href);
  }

  // ---------------------------------------------------------- extraction

  /** The word every kept URL must contain. */
  const WineMarker: string := "vinho"

  /** The record a product container yields in the first pass, if any. */
  function ProductItem(baseDomain: string, currentUrl: string, p: ProductElement): (r: Option<WineItem>)
    ensures r.Some? ==> p.title.Some? && p.href.Some?
    ensures r.Some? ==> r.value.title == Strip(p.title.value) && Contains(r.value.url, WineMarker)
  {
    if p.title.Some? && p.href.Some? then
      var url := ResolveHref(baseDomain, currentUrl, p.href.value);
      if Contains(url, WineMarker) then Some(WineItem(url, Strip(p.title.value))) else None
    else None
  }

  /** How many ancestors of a title the fallback inspects. */
  const MaxDepth: nat := 5

  /** The first link among the first `MaxDepth` ancestors, with its depth. */
  function FirstLink(links: seq<Option<string>>): (r: Option<(nat, string)>)
    ensures r.Some? ==> r.value.0 < MaxDepth && r.value.0 < |links| && links[r.value.0] == Some(r.value.1)
    ensures r.Some? ==> forall d :: 0 <= d < r.value.0 ==> links[d].None?
    ensures r.None? ==> forall d :: 0 <= d < MaxDepth && d < |links| ==> links[d].None?
  {
    FirstLinkFrom(links, 0)
  }

  function FirstLinkFrom(links: seq<Option<string>>, depth: nat): (r: Option<(nat, string)>)
    requires forall d :: 0 <= d < depth && d < |links| ==> links[d].None?
    ensures r.Some? ==> depth <= r.value.0 < MaxDepth && r.value.0 < |links| && links[r.value.0] == Some(r.value.1)
    ensures r.Some? ==> forall d :: 0 <= d < r.value.0 ==> links[d].None?
    ensures r.None? ==> forall d :: 0 <= d < MaxDepth && d < |links| ==> links[d].None?
    decreases MaxDepth - depth
  {
    if depth >= MaxDepth || depth >= |links| then None
    else if links[depth].Some? then Some((depth, links[depth].value))
    else FirstLinkFrom(links, depth + 1)
  }

  /**
   * The record the fallback pass makes of a title: the nearest ancestor
   * link decides, and a link that fails the marker test ends the search
   * for that title without a record.
   */
  function TitleItem(baseDomain: string, currentUrl: string, t: TitleElement): (r: Option<WineItem>)
    ensures r.Some? ==> r.value.title == Strip(t.text) && Contains(r.value.url, WineMarker)
  {
    match FirstLink(t.ancestorLinks)
    case None => None
    case Some((_, href)) =>
      var url := ResolveHref(baseDomain, currentUrl, href);
      if Contains(url, WineMarker) then Some(WineItem(url, Strip(t.text))) else None
  }

  /**
   * The fallback looks no further than the nearest ancestor holding a
   * link: the title yields a record exactly when that one link resolves
   * to a URL with the marker, whatever links further ancestors hold.
   */
  lemma TitleItemUsesNearestLink(baseDomain: string, currentUrl: string, t: TitleElement, d: nat)
    requires d < MaxDepth && d < |t.ancestorLinks| && t.ancestorLinks[d].Some?
    requires forall k :: 0 <= k < d ==> t.ancestorLinks[k].None?
    ensures TitleItem(baseDomain, currentUrl, t).Some?
            <==> Contains(ResolveHref(baseDomain, currentUrl, t.ancestorLinks[d].value), WineMarker)
  {
    var r := FirstLink(t.ancestorLinks);
    assert r == Some((d, t.ancestorLinks[d].value));
  }

  /** A title with no link among its first `MaxDepth` ancestors yields nothing. */
  lemma TitleItemNeedsNearLink(baseDomain: string, currentUrl: string, t: TitleElement)
    requires forall d :: 0 <= d < MaxDepth && d < |t.ancestorLinks| ==> t.ancestorLinks[d].None?
    ensures TitleItem(baseDomain, currentUrl, t).None?
  {
    assert FirstLink(t.ancestorLinks).None?;
  }

  function PrimaryItems(page: Page, baseDomain: string): seq<WineItem> {
    FilterMap(page.products, (p: ProductElement) => ProductItem(baseDomain, page.url, p))
  }

  function FallbackItems(page: Page, baseDomain: string): seq<WineItem> {
    FilterMap(page.titles, (t: TitleElement) => TitleItem(baseDomain, page.url, t))
  }

  /** `extract_from_page`: the first pass, or the fallback pass when the first found nothing. */
  function PageItems(page: Page, baseDomain: string): seq<WineItem> {
    var primary := PrimaryItems(page, baseDomain);
    if primary != [] then primary else FallbackItems(page, baseDomain)
  }

  predicate Marked(w: WineItem) {
    Contains(w.url, WineMarker) && w.title == Strip(w.title)
  }

  /** Every record of a page carries the marker in its URL and a title that is already stripped. */
  lemma PageItemsMarked(page: Page, baseDomain: string)
    ensures forall w :: w in PageItems(page, baseDomain) ==> Marked(w)
  {
    var products, titles := page.products, page.titles;
    forall i | 0 <= i < |products| && ProductItem(baseDomain, page.url, products[i]).Some?
      ensures Marked(ProductItem(baseDomain, page.url, products[i]).value)
    {
      StripIdempotent(products[i].title.value);
    }
    FilterMapAll(products, (p: ProductElement) => ProductItem(baseDomain, page.url, p), Marked);
    forall i | 0 <= i < |titles| && TitleItem(baseDomain, page.url, titles[i]).Some?
      ensures Marked(TitleItem(baseDomain, page.url, titles[i]).value)
    {
      StripIdempotent(titles[i].text);
    }
    FilterMapAll(titles, (t: TitleElement) => TitleItem(baseDomain, page.url, t), Marked);
  }

  /** The title pass is used exactly when no product container yielded a record. */
  lemma FallbackWhenNoProductRecord(page: Page, baseDomain: string)
    ensures PageItems(page, baseDomain)
            == if exists i :: 0 <= i < |page.products| && ProductItem(baseDomain, page.url, page.products[i]).Some?
               then PrimaryItems(page, baseDomain) else FallbackItems(page, baseDomain)
  {
    PrimaryItemsFound(page, baseDomain);
  }

  /** The first pass finds something exactly when some product container yields a record. */
  lemma PrimaryItemsFound(page: Page, baseDomain: string)
    ensures PrimaryItems(page, baseDomain) != []
            <==> exists i :: 0 <= i < |page.products| && ProductItem(baseDomain, page.url, page.products[i]).Some?
  {
    FilterMapEmpty(page.products, (p: ProductElement) => ProductItem(baseDomain, page.url, p));
  }

  /** The ancestor walk: at most `MaxDepth` steps, stopping at the first ancestor with a link. */
  method FindAncestorLink(links: seq<Option<string>>) returns (link: Option<(nat, string)>)
    ensures link == FirstLink(links)
  {
    var depth: nat := 0;
    while depth < |links| && depth < MaxDepth
      invariant forall d :: 0 <= d < depth && d < |links| ==> links[d].None?
      invariant FirstLinkFrom(links, depth) == FirstLink(links)
      decreases MaxDepth - depth
    {
      if links[depth].Some? {
        return Some((depth, links[depth].value));
      }
      depth := depth + 1;
    }
    return None;
  }

  /** The container loop of `extract_from_page`. */
  method ExtractProductItems(page: Page, baseDomain: string) returns (items: seq<WineItem>)
    ensures items == PrimaryItems(page, baseDomain)
  {
    ghost var f := (p: ProductElement) => ProductItem(baseDomain, page.url, p);
    items := [];
    var i := 0;
    while i < |page.products|
      invariant i <= |page.products|
      invariant items == FilterMap(page.products[..i], f)
    {
      FilterMapStep(page.products, i, f);
      var p := page.products[i];
      if p.title.Some? && p.href.Some? {
        var url := ResolveHref(baseDomain, page.url, p.href.value);
        if Contains(url, WineMarker) {
          items := items + [WineItem(url, Strip(p.title.value))];
        }
      }
      i := i + 1;
    }
    assert page.products[..i] == page.products;
  }

  /** The title loop of `extract_from_page`, with the ancestor walk for each title. */
  method ExtractTitleItems(page: Page, baseDomain: string) returns (items: seq<WineItem>)
    ensures items == FallbackItems(page, baseDomain)
  {
    ghost var g := (t: TitleElement) => TitleItem(baseDomain, page.url, t);
    items := [];
    var j := 0;
    while j < |page.titles|
      invariant j <= |page.titles|
      invariant items == FilterMap(page.titles[..j], g)
    {
      FilterMapStep(page.titles, j, g);
      var t := page.titles[j];
      var link := FindAncestorLink(t.ancestorLinks);
      if link.Some? {
        var url := ResolveHref(baseDomain, page.url, link.value.1);
        if Contains(url, WineMarker) {
          items := items + [WineItem(url, Strip(t.text))];
        }
      }
      j := j + 1;
    }
    assert page.titles[..j] == page.titles;
  }

  /** `extract_from_page`: the container pass, then the title pass if the first found nothing. */
  method ExtractFromPage(page: Page, baseDomain: string) returns (items: seq<WineItem>)
    ensures items == PageItems(page, baseDomain)
  {
    items := ExtractProductItems(page, baseDomain);
    if items == [] {
      items := ExtractTitleItems(page, baseDomain);
    }
  }

  // ------------------------------------------------------------- filter

  const Varieties: seq<string> := ["cabernet", "chardonnay", "merlot", "pinot", "sauvignon",
                                   "zinfandel", "syrah", "malbec", "blanc", "noir", "red",
                                   "white", "ros\U{E9}", "rose", "shiraz", "grenache"]
  const Producers: seq<string> := ["vineyard", "winery", "cellars", "estate", "chateau", "domaine", "bodega"]
  const Indicators: seq<string> := ["cuv\U{E9}e", "cuvee", "reserve", "grand cru", "premier cru", "brut",
                                    "vintage", "tinto", "vinho", "wine"]

  predicate IsAsciiDigit(c: char) {
    '0' <= c <= '9'
  }

  /**
   * `\w` over ASCII and Latin-1: the letters, the digits (the superscripts
   * and vulgar fractions count as numeric) and '_'.
   */
  predicate IsWordChar(c: char) {
    ('a' <= c <= 'z') || ('A' <= c <= 'Z') || IsAsciiDigit(c) || c == '_'
    || ('\U{C0}' <= c <= '\U{FF}' && c != '\U{D7}' && c != '\U{F7}')
    || c == '\U{AA}' || c == '\U{B5}' || c == '\U{BA}'
    || c == '\U{B2}' || c == '\U{B3}' || c == '\U{B9}' || ('\U{BC}' <= c <= '\U{BE}')
  }

  /** `\b20\d{2}\b` matches at index `i`. */
  predicate YearAt(s: string, i: int) {
    && 0 <= i && i + 4 <= |s|
    && s[i] == '2' && s[i + 1] == '0' && IsAsciiDigit(s[i + 2]) && IsAsciiDigit(s[i + 3])
    && (i == 0 || !IsWordChar(s[i - 1]))
    && (i + 4 == |s| || !IsWordChar(s[i + 4]))
  }

  predicate HasYear(s: string) {
    exists i :: 0 <= i < |s| && YearAt(s, i)
  }

  /** `\([^)]+\)` matches from index `i` to index `j`. */
  predicate ParenGroupAt(s: string, i: int, j: int) {
    0 <= i && i + 1 < j < |s| && s[i] == '(' && s[j] == ')' && forall k :: i < k < j ==> s[k] != ')'
  }

  predicate HasParenGroup(s: string) {
    exists i, j :: 0 <= i < j < |s| && ParenGroupAt(s, i, j)
  }

  /** The five tests of `filter_wine_products`, any one of which keeps a title. */
  predicate IsWineTitle(title: string) {
    var lower := Lower(title);
    HasYear(title) || ContainsAny(lower, Varieties) || ContainsAny(lower, Producers)
    || ContainsAny(lower, Indicators) || HasParenGroup(title)
  }

  /** Index of the first ')' at or after `from`, or |s|. */
  function CloseFrom(s: string, from: nat): (k: nat)
    requires from <= |s|
    ensures from <= k <= |s|
    ensures k < |s| ==> s[k] == ')'
    ensures forall m :: from <= m < k ==> s[m] != ')'
    decreases |s| - from
  {
    if from == |s| || s[from] == ')' then from else CloseFrom(s, from + 1)
  }

  /**
   * The parenthesis test is a local one: a '(' followed by a character
   * other than ')' and, somewhere later, by a ')'.
   */
  lemma ParenGroupIff(s: string)
    ensures HasParenGroup(s)
            <==> exists i, j :: 0 <= i && i + 1 < j < |s| && s[i] == '(' && s[i + 1] != ')' && s[j] == ')'
  {
    if exists i, j :: 0 <= i && i + 1 < j < |s| && s[i] == '(' && s[i + 1] != ')' && s[j] == ')' {
      var i, j :| 0 <= i && i + 1 < j < |s| && s[i] == '(' && s[i + 1] != ')' && s[j] == ')';
      var k := CloseFrom(s, i + 1);
      assert k <= j;
      assert ParenGroupAt(s, i, k);
    }
    if HasParenGroup(s) {
      var i, j :| 0 <= i < j < |s| && ParenGroupAt(s, i, j);
      assert s[i + 1] != ')';
    }
  }

  /** Every title with a vintage year standing as a word of its own is kept, whatever else it says. */
  lemma YearMakesWineTitle(s: string, i: int)
    requires YearAt(s, i)
    ensures IsWineTitle(s)
  {
    assert 0 <= i < |s|;
  }

  function IsWineItem(w: WineItem): bool {
    IsWineTitle(w.title)
  }

  /** `filter_wine_products`: the items whose title passes, in input order. */
  method FilterWineProducts(items: seq<WineItem>) returns (kept: seq<WineItem>)
    ensures kept == Filter(items, IsWineItem)
  {
    kept := [];
    var i := 0;
    while i < |items|
      invariant i <= |items|
      invariant kept == Filter(items[..i], IsWineItem)
    {
      assert items[..i + 1][..i] == items[..i];
      if IsWineTitle(items[i].title) {
        kept := kept + [items[i]];
      }
      i := i + 1;
    }
    assert items[..i] == items;
  }

  // -------------------------------------------------------------- dedup

  function UrlSet(items: seq<WineItem>): set<string> {
    if items == [] then {} else UrlSet(items[..|items| - 1]) + {items[|items| - 1].url}
  }

  lemma {:induction false} UrlSetMembers(items: seq<WineItem>)
    ensures forall u :: u in UrlSet(items) <==> exists i :: 0 <= i < |items| && items[i].url == u
  {
    if items != [] {
      var init := items[..|items| - 1];
      UrlSetMembers(init);
      forall u
        ensures u in UrlSet(items) <==> exists i :: 0 <= i < |items| && items[i].url == u
      {
        if u in UrlSet(init) {
          var i :| 0 <= i < |init| && init[i].url == u;
          assert items[i] == init[i];
        }
        if exists i :: 0 <= i < |items| && items[i].url == u {
          var i :| 0 <= i < |items| && items[i].url == u;
          if i < |init| {
            assert init[i] == items[i];
          }
        }
      }
    }
  }

  /** The first item of each URL, in input order. */
  function Dedup(items: seq<WineItem>): seq<WineItem> {
    if items == [] then []
    else
      var init, last := items[..|items| - 1], items[|items| - 1];
      Dedup(init) + (if last.url in UrlSet(init) then [] else [last])
  }

  /** No earlier item of `items` has the URL of item `i`. */
  predicate FirstOfUrl(items: seq<WineItem>, i: int)
    requires 0 <= i < |items|
  {
    forall k :: 0 <= k < i ==> items[k].url != items[i].url
  }

  /** Deduplication keeps one item per URL: no URL twice, and no URL lost. */
  lemma {:induction false} DedupOnePerUrl(items: seq<WineItem>)
    ensures forall i, j :: 0 <= i < j < |Dedup(items)| ==> Dedup(items)[i].url != Dedup(items)[j].url
    ensures UrlSet(Dedup(items)) == UrlSet(items)
  {
    if items != [] {
      var init, last := items[..|items| - 1], items[|items| - 1];
      DedupOnePerUrl(init);
      var d := Dedup(init);
      var r := Dedup(items);
      if last.url !in UrlSet(init) {
        assert r == d + [last];
        assert r[..|r| - 1] == d && r[|r| - 1] == last;
        UrlSetMembers(d);
        forall i, j | 0 <= i < j < |r|
          ensures r[i].url != r[j].url
        {
          assert r[i] == d[i];
          if j < |r| - 1 {
            assert r[j] == d[j];
          }
        }
      } else {
        assert r == d;
        assert UrlSet(items) == UrlSet(init) + {last.url};
      }
    }
  }

  /** Deduplication only deletes items: the rest keep their input order. */
  lemma {:induction false} DedupSubsequence(items: seq<WineItem>)
    ensures IsSubsequence(Dedup(items), items)
  {
    if items != [] {
      var init, last := items[..|items| - 1], items[|items| - 1];
      DedupSubsequence(init);
      var r := Dedup(items);
      if last.url !in UrlSet(init) {
        assert r != [] && r[..|r| - 1] == Dedup(init) && r[|r| - 1] == last;
      } else {
        assert r == Dedup(init);
      }
    }
  }

  /** Whether the last item is the first of its URL depends only on the earlier items' URLs. */
  lemma LastFirstOfUrl(items: seq<WineItem>)
    requires items != []
    ensures FirstOfUrl(items, |items| - 1) <==> items[|items| - 1].url !in UrlSet(items[..|items| - 1])
  {
    var init := items[..|items| - 1];
    UrlSetMembers(init);
    if !FirstOfUrl(items, |items| - 1) {
      var k :| 0 <= k < |items| - 1 && items[k].url == items[|items| - 1].url;
      assert init[k] == items[k];
    }
  }

  /** Every item that is the first of its URL is kept. */
  lemma {:induction false} DedupKeepsFirst(items: seq<WineItem>)
    ensures forall i :: 0 <= i < |items| && FirstOfUrl(items, i) ==> items[i] in Dedup(items)
  {
    if items != [] {
      var init := items[..|items| - 1];
      DedupKeepsFirst(init);
      LastFirstOfUrl(items);
      forall i | 0 <= i < |items| && FirstOfUrl(items, i)
        ensures items[i] in Dedup(items)
      {
        if i < |items| - 1 {
          assert init[i] == items[i];
          assert FirstOfUrl(init, i);
        }
      }
    }
  }

  /** Every kept item is the first of its URL. */
  lemma {:induction false} DedupKeepsOnlyFirst(items: seq<WineItem>)
    ensures forall w :: w in Dedup(items) ==> exists i :: 0 <= i < |items| && items[i] == w && FirstOfUrl(items, i)
  {
    if items != [] {
      var init := items[..|items| - 1];
      DedupKeepsOnlyFirst(init);
      LastFirstOfUrl(items);
      forall w | w in Dedup(items)
        ensures exists i :: 0 <= i < |items| && items[i] == w && FirstOfUrl(items, i)
      {
        if w in Dedup(init) {
          var i :| 0 <= i < |init| && init[i] == w && FirstOfUrl(init, i);
          assert items[i] == w;
          assert FirstOfUrl(items, i);
        } else {
          assert w == items[|items| - 1];
        }
      }
    }
  }

  /** The duplicate-removal loop, with its set of URLs seen so far. */
  method DedupByUrl(items: seq<WineItem>) returns (unique: seq<WineItem>)
    ensures unique == Dedup(items)
  {
    var seen: set<string> := {};
    unique := [];
    var i := 0;
    while i < |items|
      invariant i <= |items|
      invariant seen == UrlSet(items[..i])
      invariant unique == Dedup(items[..i])
    {
      var init := items[..i + 1][..i];
      assert init == items[..i];
      if items[i].url !in seen {
        seen := seen + {items[i].url};
        unique := unique + [items[i]];
      }
      i := i + 1;
    }
    assert items[..i] == items;
  }

  // ---------------------------------------------------------- pagination

  /** The number of pagination locators `click_next_page` tries. */
  const SelectorCount: nat := 8

  /**
   * `click_next_page`: the locators for the page after `currentPage` are
   * tried in order; `clicks(currentPage)(k)` says whether locator `k` was
   * found, scrolled to and clicked.
   */
  method ClickNextPage(currentPage: nat, clicks: nat -> nat -> bool) returns (clicked: bool)
    ensures clicked <==> AnySucceeds(SelectorCount, clicks(currentPage))
  {
    var index;
    clicked, index := TryInOrder(SelectorCount, clicks(currentPage));
  }

  /** How loading a page went: parsed content, or an error that aborts the crawl. */
  datatype PageLoad = Loaded(page: Page) | Failed

  /** The state the page loop leaves: items gathered, pages processed, and whether it aborted. */
  datatype Crawl = Crawl(items: seq<WineItem>, pages: nat, failed: bool)

  /**
   * The page loop from page `current` on.  `kept(p)` is what page `p`
   * contributes (nothing when processing it raised), and `next(p)` whether
   * the link to page `p + 1` was clicked.  The loop ends at the page limit,
   * at a missing next link or at an error.
   */
  function CrawlFrom(current: nat, maxPages: nat, kept: nat -> Option<seq<WineItem>>, next: nat -> bool): Crawl
    decreases maxPages - current
  {
    if current > maxPages then Crawl([], 0, false)
    else
      match kept(current)
      case None => Crawl([], 0, true)
      case Some(items) =>
        if current >= maxPages || !next(current) then Crawl(items, 1, false)
        else
          var rest := CrawlFrom(current + 1, maxPages, kept, next);
          Crawl(items + rest.items, 1 + rest.pages, rest.failed)
  }

  /** What one page contributes: its extracted items that pass the wine filter. */
  function PageOutput(load: PageLoad): Option<seq<WineItem>> {
    match load
    case Failed => None
    case Loaded(page) => Some(Filter(PageItems(page, Origin(page.url)), IsWineItem))
  }

  function Kept(visit: nat -> PageLoad): nat -> Option<seq<WineItem>> {
    (p: nat) => PageOutput(visit(p))
  }

  function NextClicked(clicks: nat -> nat -> bool): nat -> bool {
    (p: nat) => AnySucceeds(SelectorCount, clicks(p))
  }

  /** What `extract_wine_data` returns: the deduplicated items, or the raw ones after an error. */
  function WineData(maxPages: nat, visit: nat -> PageLoad, clicks: nat -> nat -> bool): seq<WineItem> {
    var c := CrawlFrom(1, maxPages, Kept(visit), NextClicked(clicks));
    if c.failed then c.items else Dedup(c.items)
  }

  /**
   * The page loop processes pages `current`, `current + 1`, ... in a row,
   * never beyond `maxPages`; it moves on from a page only when the next
   * link was clicked; a run that ends normally before the limit ends on a
   * page whose next link was missing; an aborted run stops at the page
   * that failed.
   */
  lemma {:induction false} CrawlBounds(current: nat, maxPages: nat, kept: nat -> Option<seq<WineItem>>, next: nat -> bool)
    requires 1 <= current <= maxPages + 1
    ensures var c := CrawlFrom(current, maxPages, kept, next);
            && current + c.pages <= maxPages + 1
            && (forall p :: current <= p < current + c.pages - 1 ==> next(p))
            && (!c.failed && c.pages > 0 && current + c.pages - 1 < maxPages ==> !next(current + c.pages - 1))
            && (c.failed ==> kept(current + c.pages).None?)
    decreases maxPages - current
  {
    if current <= maxPages && kept(current).Some? && current < maxPages && next(current) {
      CrawlBounds(current + 1, maxPages, kept, next);
    }
  }

  /**
   * `kept` gives, page number by page number, what the loop keeps of the
   * page loaded under that number.  The loop below is proved against any
   * such `kept`, so that it never has to look inside a page.
   */
  ghost predicate KeepsPageOutput(visit: nat -> PageLoad, kept: nat -> Option<seq<WineItem>>) {
    forall p {:trigger PageOutput(visit(p))} :: kept(p) == PageOutput(visit(p))
  }

  lemma KeptKeepsPageOutput(visit: nat -> PageLoad)
    ensures KeepsPageOutput(visit, Kept(visit))
  {
  }

  /** A page that did not load gives the loop nothing to keep. */
  lemma FailedPageKeepsNothing(visit: nat -> PageLoad, kept: nat -> Option<seq<WineItem>>, current: nat)
    requires KeepsPageOutput(visit, kept) && visit(current).Failed?
    ensures kept(current).None?
  {
    assert PageOutput(visit(current)) == None;
  }

  /** One page of the loop: extract its items against its own origin, then keep the wines. */
  method ProcessPage(visit: nat -> PageLoad, current: nat, ghost kept: nat -> Option<seq<WineItem>>)
    returns (filtered: seq<WineItem>)
    requires visit(current).Loaded? && KeepsPageOutput(visit, kept)
    ensures kept(current) == Some(filtered)
  {
    var page := visit(current).page;
    var pageItems := ExtractFromPage(page, Origin(page.url));
    filtered := FilterWineProducts(pageItems);
    assert PageOutput(visit(current)) == Some(filtered);
  }

  /**
   * The stopping step: from a page that fails to load the loop adds
   * nothing and reports the error; from a loaded page at the limit or
   * without a clicked next link it adds that page's items and stops.
   */
  lemma CrawlStopsAt(current: nat, maxPages: nat, kept: nat -> Option<seq<WineItem>>, next: nat -> bool)
    requires current <= maxPages
    requires kept(current).None? || current >= maxPages || !next(current)
    ensures kept(current).None? ==> CrawlFrom(current, maxPages, kept, next) == Crawl([], 0, true)
    ensures kept(current).Some? ==> CrawlFrom(current, maxPages, kept, next) == Crawl(kept(current).value, 1, false)
  {
  }

  /** A page that loads and whose next link is clicked is followed by the rest of the loop. */
  lemma CrawlMovesOn(current: nat, maxPages: nat, kept: nat -> Option<seq<WineItem>>, next: nat -> bool)
    requires current < maxPages && kept(current).Some? && next(current)
    ensures var rest := CrawlFrom(current + 1, maxPages, kept, next);
            CrawlFrom(current, maxPages, kept, next)
            == Crawl(kept(current).value + rest.items, 1 + rest.pages, rest.failed)
  {
  }

  /**
   * The page loop of `extract_wine_data`: the items gathered, and whether
   * an error cut the loop short.
   */
  method CrawlPages(maxPages: nat, visit: nat -> PageLoad, clicks: nat -> nat -> bool,
                    ghost kept: nat -> Option<seq<WineItem>>)
    returns (all: seq<WineItem>, failed: bool)
    requires KeepsPageOutput(visit, kept)
    ensures var c := CrawlFrom(1, maxPages, kept, NextClicked(clicks));
            all == c.items && failed == c.failed
  {
    ghost var next := NextClicked(clicks);
    all := [];
    var currentPage: nat := 1;
    ghost var done: nat := 0;
    while currentPage <= maxPages
      invariant currentPage >= 1 && done == currentPage - 1
      invariant var rest := CrawlFrom(currentPage, maxPages, kept, next);
                CrawlFrom(1, maxPages, kept, next) == Crawl(all + rest.items, done + rest.pages, rest.failed)
      decreases maxPages - currentPage
    {
      var load := visit(currentPage);
      if load.Failed? {
        FailedPageKeepsNothing(visit, kept, currentPage);
        CrawlStopsAt(currentPage, maxPages, kept, next);
        assert all + [] == all;
        return all, true;
      }
      var filtered := ProcessPage(visit, currentPage, kept);
      ghost var before := all;
      all := all + filtered;
      if currentPage >= maxPages {
        CrawlStopsAt(currentPage, maxPages, kept, next);
        break;
      }
      var clicked := ClickNextPage(currentPage, clicks);
      if !clicked {
        assert !next(currentPage);
        CrawlStopsAt(currentPage, maxPages, kept, next);
        break;
      }
      CrawlMovesOn(currentPage, maxPages, kept, next);
      ghost var following := CrawlFrom(currentPage + 1, maxPages, kept, next);
      assert before + (filtered + following.items) == all + following.items;
      currentPage := currentPage + 1;
      done := done + 1;
    }
    assert CrawlFrom(currentPage, maxPages, kept, next).items == [] ==> all + [] == all;
    failed := false;
  }

  /** `extract_wine_data`: the page loop, then duplicate removal unless an error cut it short. */
  method ExtractWineData(maxPages: nat, visit: nat -> PageLoad, clicks: nat -> nat -> bool)
    returns (result: seq<WineItem>)
    ensures result == WineData(maxPages, visit, clicks)
  {
    KeptKeepsPageOutput(visit);
    var all, failed := CrawlPages(maxPages, visit, clicks, Kept(visit));
    if failed {
      return all;
    }
    result := DedupByUrl(all);
  }

  // ------------------------------------------------------------- scroll

  /** The cap on scroll cycles. */
  const MaxScrolls: nat := 20

  /**
   * Cycles run, heights read, whether the loop stopped because the height
   * settled, and the height kept as `last_height` when it stopped.
   */
  datatype Scroll = Scroll(cycles: nat, probes: nat, settled: bool, last: int)

  /**
   * The scroll loop from cycle `count`, with `last` the height kept from
   * before and `probe` the index of the next height reading.
   */
  function ScrollFrom(height: nat -> int, count: nat, last: int, probe: nat): Scroll
    decreases MaxScrolls - count
  {
    if count >= MaxScrolls then Scroll(count, probe, false, last)
    else
      var newHeight := height(probe);
      if newHeight == last && height(probe + 1) == newHeight then Scroll(count, probe + 2, true, last)
      else ScrollFrom(height, count + 1, newHeight, if newHeight == last then probe + 2 else probe + 1)
  }

  /** `scroll_to_bottom`, whose page heights are `height(0)`, `height(1)`, ... in reading order. */
  function ScrollToBottom(height: nat -> int): Scroll {
    ScrollFrom(height, 0, height(0), 1)
  }

  /**
   * The loop runs at most `MaxScrolls` cycles and reads at most two
   * heights per cycle besides the first; it stops early exactly when it
   * settled, and then both readings of its last cycle equal the height
   * kept from before that cycle.  A run that never completes a cycle
   * keeps the height it started with.
   */
  lemma {:induction false} ScrollBounds(height: nat -> int, count: nat, last: int, probe: nat)
    requires count <= MaxScrolls && probe >= 1 && probe <= 2 * count + 1
    ensures var s := ScrollFrom(height, count, last, probe);
            && count <= s.cycles <= MaxScrolls
            && s.probes <= 2 * s.cycles + 3
            && (s.settled <==> s.cycles < MaxScrolls)
            && (s.settled ==> s.probes >= 2 && height(s.probes - 2) == s.last && height(s.probes - 1) == s.last)
            && (s.cycles == count ==> s.last == last)
    decreases MaxScrolls - count
  {
    if count < MaxScrolls {
      var newHeight := height(probe);
      if !(newHeight == last && height(probe + 1) == newHeight) {
        ScrollBounds(height, count + 1, newHeight, if newHeight == last then probe + 2 else probe + 1);
      }
    }
  }

  /** On a page whose height never changes, the loop stops in its first cycle after three readings. */
  lemma ScrollStaticPage(height: nat -> int)
    requires forall i: nat :: height(i) == height(0)
    ensures ScrollToBottom(height) == Scroll(0, 3, true, height(0))
  {
    assert height(1) == height(0) && height(2) == height(0);
  }

  /** On a page that grows at every reading, the loop runs all `MaxScrolls` cycles. */
  lemma ScrollGrowingPage(height: nat -> int)
    requires forall i: nat :: height(i) < height(i + 1)
    ensures ScrollToBottom(height) == Scroll(MaxScrolls, MaxScrolls + 1, false, height(MaxScrolls))
  {
    GrowingFrom(height, 0);
  }

  lemma {:induction false} GrowingFrom(height: nat -> int, count: nat)
    requires forall i: nat :: height(i) < height(i + 1)
    requires count <= MaxScrolls
    ensures ScrollFrom(height, count, height(count), count + 1) == Scroll(MaxScrolls, MaxScrolls + 1, false, height(MaxScrolls))
    decreases MaxScrolls - count
  {
    if count < MaxScrolls {
      assert height(count) < height(count + 1);
      GrowingFrom(height, count + 1);
    }
  }

  /** The scroll loop, reading heights through the oracle. */
  method ScrollLoop(height: nat -> int) returns (s: Scroll)
    ensures s == ScrollToBottom(height)
  {
    var probe: nat := 0;
    var lastHeight := height(probe);
    probe := probe + 1;
    var scrollCount: nat := 0;
    while scrollCount < MaxScrolls
      invariant scrollCount <= MaxScrolls
      invariant ScrollFrom(height, scrollCount, lastHeight, probe) == ScrollToBottom(height)
      decreases MaxScrolls - scrollCount
    {
      var newHeight := height(probe);
      probe := probe + 1;
      if newHeight == lastHeight {
        var newestHeight := height(probe);
        probe := probe + 1;
        if newestHeight == newHeight {
          return Scroll(scrollCount, probe, true, lastHeight);
        }
      }
      lastHeight := newHeight;
      scrollCount := scrollCount + 1;
    }
    return Scroll(scrollCount, probe, false, lastHeight);
  }
}
