/**
 * The pao.py scraper: among the page's `div` elements take the product
 * cards, find each card's title container and in it the first anchor
 * whose href mentions "/produto/", and write its text and the href
 * joined to the site address when the joined URL still mentions
 * "/produto/".
 */
module Pao {
  import opened Common
  import opened Text
  import opened Urls

  const PaoBase: string := SiteUrl("https", "www.paodeacucar.com")
  const Header: seq<string> := ["Descri\U{E7}\U{E3}o", "Link"]

  /** The class fragments that mark a product card, and the one that marks its title container. */
  const CardClass: string := "Card-sc-yvvqkp-0"
  const CardStyledClass: string := "CardStyled-sc-20azeh-0"
  const TitleContainerClass: string := "TitleContainer-sc-20azeh-9"

  /** The path segment of a product page. */
  const ProductPath: string := "/produto/"

  /** An anchor: its href attribute, if any, and its text. */
  datatype Anchor = Anchor(href: Option<string>, text: string)

  /** A `div` inside a card: its class attribute and the anchors inside it, in document order. */
  datatype InnerDiv = InnerDiv(classes: Option<string>, anchors: seq<Anchor>)

  /** A `div` of the page: its class attribute and the `div` elements inside it, in document order. */
  datatype Div = Div(classes: Option<string>, inner: seq<InnerDiv>)

  /** The class filter of the card search: a non-empty class naming either card class. */
  predicate IsCard(d: Div) {
    d.classes.Some? && d.classes.value != []
    && (Contains(d.classes.value, CardClass) || Contains(d.classes.value, CardStyledClass))
  }

  predicate IsTitleContainer(d: InnerDiv) {
    d.classes.Some? && d.classes.value != [] && Contains(d.classes.value, TitleContainerClass)
  }

  /** The href filter of the link search: a non-empty href mentioning the product path. */
  predicate IsProductLink(a: Anchor) {
    a.href.Some? && a.href.value != [] && Contains(a.href.value, ProductPath)
  }

  /** The full URL of a product link: its href joined to the site address. */
  function LinkUrl(a: Anchor): string
    requires a.href.Some?
  {
    Resolve(PaoBase, a.href.value)
  }

  /**
   * The row a card gives: the stripped text of the first product link in
   * its first title container, and that link's full URL; none when there
   * is no title container, no product link in it, or the full URL does
   * not mention the product path.
   */
  function CardRow(card: Div): Option<seq<string>> {
    var title := FirstMatch(card.inner, IsTitleContainer);
    if title.None? then None
    else
      var link := FirstMatch(title.value.anchors, IsProductLink);
      if link.None? then None
      else if Contains(LinkUrl(link.value), ProductPath) then Some([Strip(link.value.text), LinkUrl(link.value)])
      else None
  }

  /** The CSV the script writes: the header, then one row per card that gives one, in document order. */
  function ProductTable(divs: seq<Div>): Table {
    Table(Header, FilterMap(Filter(divs, IsCard), CardRow))
  }

  /** The loop over the cards, counting the rows it writes. */
  method ExtractProducts(divs: seq<Div>) returns (table: Table, productsFound: nat)
    ensures table == ProductTable(divs)
    ensures productsFound == |table.rows|
  {
    var productCards := Filter(divs, IsCard);
    var rows: seq<seq<string>> := [];
    productsFound := 0;
    var i := 0;
    while i < |productCards|
      invariant i <= |productCards|
      invariant rows == FilterMap(productCards[..i], CardRow)
      invariant productsFound == |rows|
    {
      FilterMapStep(productCards, i, CardRow);
      var card := productCards[i];
      var titleContainer := FirstMatch(card.inner, IsTitleContainer);
      if titleContainer.Some? {
        var linkElement := FirstMatch(titleContainer.value.anchors, IsProductLink);
        if linkElement.Some? {
          var description := Strip(linkElement.value.text);
          var fullUrl := Resolve(PaoBase, linkElement.value.href.value);
          if Contains(fullUrl, ProductPath) {
            rows := rows + [[description, fullUrl]];
            productsFound := productsFound + 1;
          }
        }
      }
      i := i + 1;
    }
    assert productCards[..i] == productCards;
    table := Table(Header, rows);
  }

  /** The site address has a scheme and a host and nothing after them. */
  lemma ParsePaoBase()
    ensures Parse(PaoBase) == Uri(Some("https"), Some("www.paodeacucar.com"), "", None, None)
  {
    SiteAddress("https", "www.paodeacucar.com", PaoBase);
  }

  /**
   * Joining a product link with no "." or ".." segment to the bare site
   * address keeps the href at the end of the URL, so the URL mentions the
   * product path as the href does: the second test does not reject such
   * a link.
   */
  lemma ProductLinkUrlKeepsPath(a: Anchor)
    requires IsProductLink(a) && NoDotSegment(a.href.value)
    ensures Contains(LinkUrl(a), ProductPath)
  {
    ParsePaoBase();
    ProductPathStart();
    HostOnlyKeepsText(PaoBase, a.href.value, ProductPath);
  }

  /** The product path starts with '/' and a letter. */
  lemma ProductPathStart()
    ensures |ProductPath| >= 2 && ProductPath[0] == '/' && !EndsSegment(ProductPath[1])
  {
  }

  /**
   * A card gives a row exactly when its first title container holds a
   * product link whose full URL still mentions the product path; the row
   * is that link's stripped text and full URL.  A product link with no
   * "." or ".." segment always passes the URL test.
   */
  lemma CardRowIff(card: Div)
    ensures var title := FirstMatch(card.inner, IsTitleContainer);
            CardRow(card).Some?
            <==> title.Some? && FirstMatch(title.value.anchors, IsProductLink).Some?
                 && Contains(LinkUrl(FirstMatch(title.value.anchors, IsProductLink).value), ProductPath)
    ensures CardRow(card).Some? ==>
              var link := FirstMatch(FirstMatch(card.inner, IsTitleContainer).value.anchors, IsProductLink).value;
              CardRow(card).value == [Strip(link.text), LinkUrl(link)]
    ensures var title := FirstMatch(card.inner, IsTitleContainer);
            title.Some? && FirstMatch(title.value.anchors, IsProductLink).Some?
            && NoDotSegment(FirstMatch(title.value.anchors, IsProductLink).value.href.value)
            ==> CardRow(card).Some?
  {
    var title := FirstMatch(card.inner, IsTitleContainer);
    if title.Some? {
      var link := FirstMatch(title.value.anchors, IsProductLink);
      if link.Some? && NoDotSegment(link.value.href.value) {
        ProductLinkUrlKeepsPath(link.value);
      }
    }
  }

  /** A root-relative product href is appended to the site address. */
  lemma RootRelativeLinkUrl(a: Anchor)
    requires a.href.Some? && a.href.value != [] && a.href.value[0] == '/' && !("//" <= a.href.value)
    ensures LinkUrl(a) == PaoBase + a.href.value
  {
    ParsePaoBase();
    ConcatMatchesResolve(PaoBase, a.href.value);
  }

  /** A row has the two header columns. */
  lemma CardRowWidth(card: Div)
    ensures CardRow(card).Some? ==> |CardRow(card).value| == |Header|
  {
  }

  /** Exactly the rows of the product cards are written, and each has the two header columns. */
  lemma ProductTableRows(divs: seq<Div>)
    ensures forall row :: row in ProductTable(divs).rows
                          <==> exists d :: d in divs && IsCard(d) && CardRow(d) == Some(row)
    ensures forall row :: row in ProductTable(divs).rows ==> |row| == |Header|
  {
    FilterThenFilterMap(divs, IsCard, CardRow);
    forall d | d in divs && CardRow(d).Some?
      ensures |CardRow(d).value| == |Header|
    {
      CardRowWidth(d);
    }
  }
}
