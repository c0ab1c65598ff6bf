/**
 * The zonasul.py scraper: click "Mostrar mais" until it is gone or a click
 * fails, then one record per product anchor, with the description taken
 * from the product-brand span or else the brand-name span, the price from
 * the three price spans, and the URL made by prefixing the site address
 * to the anchor's href.
 */
module Zonasul {
  import opened Common
  import opened Text
  import opened Urls
  import opened Fields

  const ZonasulBase: string := "https://www.zonasul.com.br"

  /**
   * What one round of the click loop meets: the button is found and
   * clicked, the button is not found, or looking it up or clicking it
   * raised some other error.
   */
  datatype ClickOutcome = Clicked | NotFound | ClickError

  /**
   * The `while True` click loop, the browser being an oracle indexed by
   * round.  It ends at the first round that does not click, whichever
   * way that round ended, having clicked once in every round before.
   */
  method ClickUntilGone(round: nat -> ClickOutcome) returns (clicks: nat, last: ClickOutcome)
    requires exists k: nat :: round(k) != Clicked
    ensures last == round(clicks) && last != Clicked
    ensures forall k :: 0 <= k < clicks ==> round(k) == Clicked
  {
    ghost var bound: nat :| round(bound) != Clicked;
    clicks := 0;
    while true
      invariant clicks <= bound
      invariant forall k :: 0 <= k < clicks ==> round(k) == Clicked
      decreases bound - clicks
    {
      var outcome := round(clicks);
      if outcome != Clicked {
        return clicks, outcome;
      }
      clicks := clicks + 1;
    }
  }

  /** The round count the click loop ends at is determined by the browser alone. */
  lemma ClickCountUnique(round: nat -> ClickOutcome, a: nat, b: nat)
    requires round(a) != Clicked && forall k :: 0 <= k < a ==> round(k) == Clicked
    requires round(b) != Clicked && forall k :: 0 <= k < b ==> round(k) == Clicked
    ensures a == b
  {
  }

  /**
   * A product anchor: the text pieces of each span the script looks up
   * in it (none when the span is absent) and its `href` attribute.
   */
  datatype Container = Container(productBrand: Option<seq<string>>, brandName: Option<seq<string>>,
                                 integer: Option<seq<string>>, decimal: Option<seq<string>>,
                                 fraction: Option<seq<string>>, href: Option<string>)

  /** The product-brand span's text, else the brand-name span's, else "N/A". */
  function Description(c: Container): string {
    if c.productBrand.Some? then SpanText(c.productBrand) else SpanText(c.brandName)
  }

  /** The site address followed by the href, or "N/A" for a missing or empty href. */
  function ProductUrl(c: Container): string {
    if c.href.Some? && c.href.value != [] then ZonasulBase + c.href.value else NotAvailable
  }

  function ContainerRecord(c: Container): ProductRecord {
    ProductRecord(Description(c), PriceText(c.integer, c.decimal, c.fraction), ProductUrl(c))
  }

  /** The extraction loop: one record per product anchor, in document order. */
  method ExtractProducts(containers: seq<Container>) returns (records: seq<ProductRecord>)
    ensures records == Map(containers, ContainerRecord)
  {
    records := [];
    var i := 0;
    while i < |containers|
      invariant i <= |containers|
      invariant records == Map(containers[..i], ContainerRecord)
    {
      MapStep(containers, i, ContainerRecord);
      var product := containers[i];
      var descSpan := product.productBrand;
      if descSpan.None? {
        descSpan := product.brandName;
      }
      var description := SpanText(descSpan);
      var price := PriceText(product.integer, product.decimal, product.fraction);
      var fullUrl := if product.href.Some? && product.href.value != [] then ZonasulBase + product.href.value
                     else NotAvailable;
      records := records + [ProductRecord(description, price, fullUrl)];
      i := i + 1;
    }
    assert containers[..i] == containers;
  }

  /** The CSV file the script writes. */
  function ProductFile(containers: seq<Container>): Table {
    RecordTable(Map(containers, ContainerRecord))
  }

  /** One row per product anchor, in order, each reading back as that anchor's record. */
  lemma ProductFileRows(containers: seq<Container>)
    ensures ProductFile(containers).header == ["Description", "Price", "URL"]
    ensures |ProductFile(containers).rows| == |containers|
    ensures forall i :: 0 <= i < |containers|
                        ==> RowRecord(ProductFile(containers).rows[i]) == Some(ContainerRecord(containers[i]))
  {
    RecordTableReadsBack(Map(containers, ContainerRecord));
  }

  /**
   * When the product-brand span is present the brand-name span is never
   * consulted; the description is always already stripped.
   */
  lemma DescriptionPrefersProductBrand(c: Container, other: Option<seq<string>>)
    ensures c.productBrand.Some? ==> Description(c.(brandName := other)) == Description(c)
    ensures Strip(Description(c)) == Description(c)
  {
    if c.productBrand.Some? {
      SpanTextStripped(c.productBrand);
    } else {
      SpanTextStripped(c.brandName);
    }
  }

  /**
   * The URL is "N/A" exactly when the href is missing or empty; otherwise
   * it is the site address, and what follows it is the href as written.
   */
  lemma ProductUrlReadsBack(c: Container)
    ensures ProductUrl(c) == NotAvailable <==> c.href.None? || c.href.value == []
    ensures ProductUrl(c) != NotAvailable
            ==> ZonasulBase <= ProductUrl(c) && ProductUrl(c)[|ZonasulBase|..] == c.href.value
  {
    if c.href.Some? && c.href.value != [] {
      assert |ProductUrl(c)| > |NotAvailable|;
    }
  }

  /** The site address is a bare scheme and host. */
  lemma ParseZonasulBase()
    ensures Parse(ZonasulBase) == Uri(Some("https"), Some("www.zonasul.com.br"), "", None, None)
  {
    SiteAddress("https", "www.zonasul.com.br", ZonasulBase);
  }

  /**
   * For a root-relative href (the form the store's anchors carry), the
   * plain prefixing agrees with joining the href to the site address.
   */
  lemma ProductUrlIsJoin(c: Container)
    requires c.href.Some? && c.href.value != [] && c.href.value[0] == '/' && !("//" <= c.href.value)
    ensures ProductUrl(c) == Resolve(ZonasulBase, c.href.value)
  {
    ParseZonasulBase();
    ConcatMatchesResolve(ZonasulBase, c.href.value);
  }
}
