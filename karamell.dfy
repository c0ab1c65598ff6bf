/**
 * The karamell.py scraper: visit result pages 1 to 8, skip a page whose
 * product cards do not appear in time, and write a name and a URL for
 * every card that yields both.  The browser is an oracle from page
 * address to the page's cards, or to nothing when the wait times out.
 */
module Karamell {
  import opened Common
  import opened Text
  import opened Urls

  const KaramellBase: string := SiteUrl("https", "www.karamellstore.com.br")
  const Header: seq<string> := ["Product Name", "URL"]

  /** The pages visited are 1 to `LastPage`. */
  const LastPage: nat := 8

  function PageUrl(page: nat): string {
    KaramellBase + "/produtos?q=estados+unidos&page=" + NatToString(page)
  }

  /** The anchor with class `product-link` inside a card, with its href attribute if it has one. */
  datatype ProductLink = ProductLink(href: Option<string>)

  /** A product card: its `data-product-name` and `data-product-url` attributes and its product link. */
  datatype Card = Card(name: Option<string>, dataUrl: Option<string>, link: Option<ProductLink>)

  /** Python truthiness of an optional attribute value: present and not empty. */
  predicate Given(s: Option<string>) {
    s.Some? && s.value != []
  }

  /**
   * The card's URL, "" standing for a missing one.  Without a usable
   * `data-product-url`, the product link's href joined to the site
   * address; a `data-product-url` that does not start with "http" is
   * joined to the site address; one that does is kept as it is.
   */
  function CardUrl(c: Card): string {
    if !Given(c.dataUrl) then
      (if c.link.Some? && c.link.value.href.Some? then Resolve(KaramellBase, c.link.value.href.value) else [])
    else if !("http" <= c.dataUrl.value) then Resolve(KaramellBase, c.dataUrl.value)
    else c.dataUrl.value
  }

  /** The row a card gives: its name and URL, or none when either is missing. */
  function CardRow(c: Card): Option<seq<string>> {
    var url := CardUrl(c);
    if !Given(c.name) || url == [] then None else Some([c.name.value, url])
  }

  /** The rows of one page: none when the wait timed out, else one per card that gives a row. */
  function PageRows(cards: Option<seq<Card>>): seq<seq<string>> {
    if cards.None? then [] else FilterMap(cards.value, CardRow)
  }

  /** The rows of each page number, read from the page at its address. */
  function RowsOfPage(load: string -> Option<seq<Card>>): nat -> seq<seq<string>> {
    (page: nat) => PageRows(load(PageUrl(page)))
  }

  /** The rows written for pages 1 to `last`, in page order. */
  function RowsThrough(load: string -> Option<seq<Card>>, last: nat): seq<seq<string>> {
    PagesThrough(RowsOfPage(load), last)
  }

  /**
   * `rowsOf` gives, page number by page number, the rows written for the
   * page at that number's address.  The page loop is proved against any
   * such `rowsOf`, so that it never has to look inside a card.
   */
  ghost predicate KeepsPageRows(load: string -> Option<seq<Card>>, rowsOf: nat -> seq<seq<string>>) {
    forall p {:trigger PageRows(load(PageUrl(p)))} :: rowsOf(p) == PageRows(load(PageUrl(p)))
  }

  lemma RowsOfPageKeeps(load: string -> Option<seq<Card>>)
    ensures KeepsPageRows(load, RowsOfPage(load))
  {
  }

  /** Any such `rowsOf` gives the rows written for pages 1 to `n`. */
  lemma KeptRowsThrough(load: string -> Option<seq<Card>>, rowsOf: nat -> seq<seq<string>>, n: nat)
    requires KeepsPageRows(load, rowsOf)
    ensures PagesThrough(rowsOf, n) == RowsThrough(load, n)
  {
    forall p | 1 <= p <= n
      ensures rowsOf(p) == RowsOfPage(load)(p)
    {
      assert rowsOf(p) == PageRows(load(PageUrl(p)));
    }
    PagesAgree(rowsOf, RowsOfPage(load), n);
  }

  /** A page whose cards never appeared adds no row. */
  lemma TimedOutPageRows(load: string -> Option<seq<Card>>, rowsOf: nat -> seq<seq<string>>, page: nat)
    requires KeepsPageRows(load, rowsOf) && load(PageUrl(page)).None?
    ensures rowsOf(page) == []
  {
    assert PageRows(load(PageUrl(page))) == [];
  }

  /** The card loop of one page that loaded in time. */
  method ScrapePage(cards: seq<Card>, ghost load: string -> Option<seq<Card>>,
                    ghost rowsOf: nat -> seq<seq<string>>, ghost page: nat)
    returns (rows: seq<seq<string>>, found: nat)
    requires KeepsPageRows(load, rowsOf) && load(PageUrl(page)) == Some(cards)
    ensures rows == rowsOf(page) && found == |rows|
  {
    rows, found := ExtractCards(cards);
    assert PageRows(load(PageUrl(page))) == rows;
  }

  /** The page loop with its inner card loop, counting the rows it writes. */
  method Scrape(load: string -> Option<seq<Card>>, ghost rowsOf: nat -> seq<seq<string>>)
    returns (table: Table, totalProducts: nat, visited: seq<string>)
    requires KeepsPageRows(load, rowsOf)
    ensures |visited| == LastPage && forall i :: 0 <= i < LastPage ==> visited[i] == PageUrl(i + 1)
    ensures table == Table(Header, PagesThrough(rowsOf, LastPage))
    ensures totalProducts == |table.rows|
  {
    var rows: seq<seq<string>> := [];
    totalProducts := 0;
    visited := [];
    var pageNum := 1;
    while pageNum < LastPage + 1
      invariant 1 <= pageNum <= LastPage + 1
      invariant |visited| == pageNum - 1 && forall i :: 0 <= i < pageNum - 1 ==> visited[i] == PageUrl(i + 1)
      invariant rows == PagesThrough(rowsOf, pageNum - 1)
      invariant totalProducts == |rows|
    {
      var pageUrl := PageUrl(pageNum);
      visited := visited + [pageUrl];
      var cards := load(pageUrl);
      if cards.None? {
        TimedOutPageRows(load, rowsOf, pageNum);
        pageNum := pageNum + 1;
        continue;
      }
      var pageRows, found := ScrapePage(cards.value, load, rowsOf, pageNum);
      rows := rows + pageRows;
      totalProducts := totalProducts + found;
      pageNum := pageNum + 1;
    }
    table := Table(Header, rows);
  }

  /** The script as a whole: the CSV it writes is the header and the rows of pages 1 to `LastPage`. */
  method Run(load: string -> Option<seq<Card>>) returns (table: Table, totalProducts: nat)
    ensures table == Table(Header, RowsThrough(load, LastPage))
    ensures totalProducts == |table.rows|
  {
    RowsOfPageKeeps(load);
    var visited;
    table, totalProducts, visited := Scrape(load, RowsOfPage(load));
    KeptRowsThrough(load, RowsOfPage(load), LastPage);
  }

  /** The loop over one page's cards. */
  method ExtractCards(cards: seq<Card>) returns (rows: seq<seq<string>>, found: nat)
    ensures rows == FilterMap(cards, CardRow) && found == |rows|
  {
    rows := [];
    found := 0;
    var i := 0;
    while i < |cards|
      invariant i <= |cards|
      invariant rows == FilterMap(cards[..i], CardRow) && found == |rows|
    {
      FilterMapStep(cards, i, CardRow);
      var card := cards[i];
      var productName := card.name;
      var productUrl := card.dataUrl.GetOr([]);
      if productUrl == [] {
        if card.link.Some? && card.link.value.href.Some? {
          productUrl := Resolve(KaramellBase, card.link.value.href.value);
        }
      } else if !("http" <= productUrl) {
        productUrl := Resolve(KaramellBase, productUrl);
      }
      if !Given(productName) || productUrl == [] {
        i := i + 1;
        continue;
      }
      rows := rows + [[productName.value, productUrl]];
      found := found + 1;
      i := i + 1;
    }
    assert cards[..i] == cards;
  }

  /** The site address has a scheme and a host and nothing after them. */
  lemma ParseKaramellBase()
    ensures Parse(KaramellBase) == Uri(Some("https"), Some("www.karamellstore.com.br"), "", None, None)
  {
    SiteAddress("https", "www.karamellstore.com.br", KaramellBase);
  }

  /**
   * A card gives a URL exactly when it has a non-empty `data-product-url`
   * or a product link with an href (joining never yields an empty URL).
   */
  lemma CardUrlGiven(c: Card)
    ensures CardUrl(c) != [] <==> Given(c.dataUrl) || (c.link.Some? && c.link.value.href.Some?)
  {
    ParseKaramellBase();
    if Given(c.dataUrl) {
      ResolveNonEmpty(KaramellBase, c.dataUrl.value);
    } else if c.link.Some? && c.link.value.href.Some? {
      ResolveNonEmpty(KaramellBase, c.link.value.href.value);
    }
  }

  /** A card gives a row exactly when it has a name and a URL source; the row is its name and URL. */
  lemma CardRowIff(c: Card)
    ensures CardRow(c).Some?
            <==> Given(c.name) && (Given(c.dataUrl) || (c.link.Some? && c.link.value.href.Some?))
    ensures CardRow(c).Some? ==> CardRow(c).value == [c.name.value, CardUrl(c)]
  {
    CardUrlGiven(c);
  }

  /** A `data-product-url` that is a root-relative path ends up after the site address. */
  lemma CardUrlRootRelative(c: Card)
    requires Given(c.dataUrl) && c.dataUrl.value[0] == '/' && !("//" <= c.dataUrl.value)
    ensures CardUrl(c) == KaramellBase + c.dataUrl.value
  {
    var ref := c.dataUrl.value;
    assert !("http" <= ref);
    assert CardUrl(c) == Resolve(KaramellBase, ref);
    ParseKaramellBase();
    ConcatMatchesResolve(KaramellBase, ref);
  }

  /** Every page number gives its own address. */
  lemma PageUrlInjective(p: nat, q: nat)
    requires PageUrl(p) == PageUrl(q)
    ensures p == q
  {
    var prefix := KaramellBase + "/produtos?q=estados+unidos&page=";
    assert NatToString(p) == PageUrl(p)[|prefix|..];
    assert NatToString(q) == PageUrl(q)[|prefix|..];
    NatToStringInjective(p, q);
  }

  /** A page whose cards never appeared adds no row. */
  lemma TimedOutPageAddsNothing(load: string -> Option<seq<Card>>, page: nat)
    requires page >= 1 && load(PageUrl(page)).None?
    ensures RowsThrough(load, page) == RowsThrough(load, page - 1)
  {
    assert RowsOfPage(load)(page) == [];
  }

  /** The rows of the earlier pages come first, in page order. */
  lemma RowsInPageOrder(load: string -> Option<seq<Card>>, m: nat, n: nat)
    requires m <= n
    ensures RowsThrough(load, m) <= RowsThrough(load, n)
  {
    PagesInOrder(RowsOfPage(load), m, n);
  }

  /** A row written by the script: the two header columns, neither of them empty. */
  predicate WellFormedRow(row: seq<string>) {
    |row| == |Header| && row[0] != [] && row[1] != []
  }

  lemma PageRowsWellFormed(cards: Option<seq<Card>>)
    ensures forall row :: row in PageRows(cards) ==> WellFormedRow(row)
  {
    if cards.Some? {
      FilterMapAll(cards.value, CardRow, WellFormedRow);
    }
  }

  /** Every row written has the two header columns and a non-empty name and URL. */
  lemma RowsWellFormed(load: string -> Option<seq<Card>>, n: nat)
    ensures forall row :: row in RowsThrough(load, n) ==> WellFormedRow(row)
  {
    PagesMembers(RowsOfPage(load), n);
    forall p | 1 <= p <= n
      ensures forall row :: row in RowsOfPage(load)(p) ==> WellFormedRow(row)
    {
      PageRowsWellFormed(load(PageUrl(p)));
    }
  }

  /** A row is written exactly when some card of a page that loaded in time gives it. */
  lemma RowsFromCards(load: string -> Option<seq<Card>>, n: nat)
    ensures forall row :: row in RowsThrough(load, n)
                          <==> exists p, i :: 1 <= p <= n && load(PageUrl(p)).Some?
                                              && 0 <= i < |load(PageUrl(p)).value|
                                              && CardRow(load(PageUrl(p)).value[i]) == Some(row)
  {
    PagesMembers(RowsOfPage(load), n);
    forall p | 1 <= p <= n && load(PageUrl(p)).Some?
      ensures forall row :: row in RowsOfPage(load)(p)
                            <==> exists i :: 0 <= i < |load(PageUrl(p)).value|
                                             && CardRow(load(PageUrl(p)).value[i]) == Some(row)
    {
      FilterMapMembers(load(PageUrl(p)).value, CardRow);
    }
  }
}
