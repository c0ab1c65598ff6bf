/**
 * The santaluzia.py scraper: walk the numbered result pages from page 1,
 * stopping at the first page that shows the "not found" block or lists no
 * gallery item, and write one record per gallery item of the pages
 * before it.  The browser is an oracle from page address to parsed page.
 */
module Santaluzia {
  import opened Common
  import opened Text
  import opened Fields

  const SiteBase: string := "https://www.santaluzia.com.br"

  /** The address of page 1, whose query parameters come in a different order. */
  const FirstPageUrl: string :=
    "https://www.santaluzia.com.br/mercearia/estados-unidos?initialMap=c&initialQuery=mercearia&map=category-1,origem"

  /** The address of page n > 1 is this text followed by n. */
  const PageUrlPrefix: string :=
    "https://www.santaluzia.com.br/mercearia/estados-unidos?map=category-1,origem&initialMap=c&initialQuery=mercearia&page="

  function PageUrl(page: nat): string {
    if page == 1 then FirstPageUrl else PageUrlPrefix + NatToString(page)
  }

  /**
   * A gallery item: the text pieces of the product-brand and the three
   * price spans (none when absent) and the href of its first anchor that
   * has an href attribute (none when it has no such anchor).
   */
  datatype GalleryItem = GalleryItem(productBrand: Option<seq<string>>, integer: Option<seq<string>>,
                                     decimal: Option<seq<string>>, fraction: Option<seq<string>>,
                                     href: Option<string>)

  /** A loaded results page: whether the "not found" block is on it, and its gallery items. */
  datatype ResultPage = ResultPage(notFound: bool, items: seq<GalleryItem>)

  /** The page on which the walk stops. */
  predicate EndsWalk(p: ResultPage) {
    p.notFound || p.items == []
  }

  /** The site address followed by the href as written, or "N/A" when the item has no link. */
  function ItemUrl(item: GalleryItem): string {
    if item.href.Some? then SiteBase + item.href.value else NotAvailable
  }

  function ItemRecord(item: GalleryItem): ProductRecord {
    ProductRecord(SpanText(item.productBrand), PriceText(item.integer, item.decimal, item.fraction), ItemUrl(item))
  }

  /** The records of each page number: one per gallery item of the page at its address. */
  function RecordsOfPage(load: string -> ResultPage): nat -> seq<ProductRecord> {
    (page: nat) => Map(load(PageUrl(page)).items, ItemRecord)
  }

  /** The records of pages 1 to `last`, page after page, each page's items in order. */
  function RecordsThrough(load: string -> ResultPage, last: nat): seq<ProductRecord> {
    PagesThrough(RecordsOfPage(load), last)
  }

  /**
   * The page loop.  It visits pages 1, 2, ... in order, stops at the
   * first page that ends the walk, and keeps the records of every page
   * before that one.
   */
  method ExtractAll(load: string -> ResultPage) returns (records: seq<ProductRecord>, stopPage: nat)
    requires exists k: nat :: k >= 1 && EndsWalk(load(PageUrl(k)))
    ensures stopPage >= 1 && EndsWalk(load(PageUrl(stopPage)))
    ensures forall p :: 1 <= p < stopPage ==> !EndsWalk(load(PageUrl(p)))
    ensures records == RecordsThrough(load, stopPage - 1)
  {
    ghost var bound: nat :| bound >= 1 && EndsWalk(load(PageUrl(bound)));
    records := [];
    var page: nat := 1;
    while true
      invariant 1 <= page <= bound
      invariant forall p :: 1 <= p < page ==> !EndsWalk(load(PageUrl(p)))
      invariant records == RecordsThrough(load, page - 1)
      decreases bound - page
    {
      var url := PageUrl(page);
      var soup := load(url);
      if soup.notFound {
        return records, page;
      }
      var products := soup.items;
      if products == [] {
        return records, page;
      }
      var pageRecords := ExtractPage(products);
      records := records + pageRecords;
      page := page + 1;
    }
  }

  /** The loop over one page's gallery items. */
  method ExtractPage(products: seq<GalleryItem>) returns (records: seq<ProductRecord>)
    ensures records == Map(products, ItemRecord)
  {
    records := [];
    var i := 0;
    while i < |products|
      invariant i <= |products|
      invariant records == Map(products[..i], ItemRecord)
    {
      MapStep(products, i, ItemRecord);
      var product := products[i];
      var description := SpanText(product.productBrand);
      var price := PriceText(product.integer, product.decimal, product.fraction);
      var productUrl;
      if product.href.Some? {
        productUrl := SiteBase + product.href.value;
      } else {
        productUrl := NotAvailable;
      }
      records := records + [ProductRecord(description, price, productUrl)];
      i := i + 1;
    }
    assert products[..i] == products;
  }

  /** The CSV file the script writes. */
  function ProductFile(load: string -> ResultPage, stopPage: nat): Table
    requires stopPage >= 1
  {
    RecordTable(RecordsThrough(load, stopPage - 1))
  }

  /** Distinct pages are fetched from distinct addresses, page 1's included. */
  lemma PageUrlInjective(p: nat, q: nat)
    requires p >= 1 && q >= 1 && PageUrl(p) == PageUrl(q)
    ensures p == q
  {
    if p > 1 && q > 1 {
      var a, b := NatToString(p), NatToString(q);
      assert a == (PageUrlPrefix + a)[|PageUrlPrefix|..];
      assert b == (PageUrlPrefix + b)[|PageUrlPrefix|..];
      NatToStringInjective(p, q);
    }
  }

  /** The records kept through an earlier page are the start of those kept through a later one. */
  lemma RecordsInPageOrder(load: string -> ResultPage, m: nat, n: nat)
    requires m <= n
    ensures RecordsThrough(load, m) <= RecordsThrough(load, n)
  {
    PagesInOrder(RecordsOfPage(load), m, n);
  }

  /** A record is kept exactly when it is the record of a gallery item of a page walked through. */
  lemma RecordsComeFromPages(load: string -> ResultPage, n: nat)
    ensures forall r :: r in RecordsThrough(load, n)
                        <==> exists p, j :: 1 <= p <= n && 0 <= j < |load(PageUrl(p)).items|
                                            && r == ItemRecord(load(PageUrl(p)).items[j])
  {
    PagesMembers(RecordsOfPage(load), n);
    forall r
      ensures r in RecordsThrough(load, n)
              <==> exists p, j :: 1 <= p <= n && 0 <= j < |load(PageUrl(p)).items|
                                  && r == ItemRecord(load(PageUrl(p)).items[j])
    {
      if r in RecordsThrough(load, n) {
        var p :| 1 <= p <= n && r in RecordsOfPage(load)(p);
        var items := load(PageUrl(p)).items;
        var j :| 0 <= j < |items| && Map(items, ItemRecord)[j] == r;
      }
      if exists p, j :: 1 <= p <= n && 0 <= j < |load(PageUrl(p)).items|
                        && r == ItemRecord(load(PageUrl(p)).items[j]) {
        var p, j :| 1 <= p <= n && 0 <= j < |load(PageUrl(p)).items|
                    && r == ItemRecord(load(PageUrl(p)).items[j]);
        assert RecordsOfPage(load)(p)[j] == r;
      }
    }
  }

  /**
   * The URL is "N/A" exactly when the item has no anchor with an href;
   * an empty href gives the site address itself.  Otherwise what follows
   * the site address is the href as written.
   */
  lemma ItemUrlReadsBack(item: GalleryItem)
    ensures ItemUrl(item) == NotAvailable <==> item.href.None?
    ensures item.href.Some? ==> SiteBase <= ItemUrl(item) && ItemUrl(item)[|SiteBase|..] == item.href.value
    ensures item.href == Some([]) ==> ItemUrl(item) == SiteBase
  {
    if item.href.Some? {
      assert |ItemUrl(item)| > |NotAvailable|;
    }
  }
}
