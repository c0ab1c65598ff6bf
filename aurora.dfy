/**
 * The aurora.py scraper: a bounded "Mostrar mais" loop that keeps
 * clicking while the product count grows or the button is still shown,
 * then one row per product name that sits inside a store link.  The
 * browser is an oracle indexed by loop attempt.
 */
module Aurora {
  import opened Common
  import opened Text
  import opened Urls

  /**
   * What the browser reports at each attempt of the loop: the number of
   * product names shown, whether the "Mostrar mais" button is found, and
   * for the first and the retried click, whether each of the locators
   * found and clicked the button.
   */
  datatype Browser = Browser(count: nat -> nat, buttonPresent: nat -> bool,
                             firstTry: nat -> nat -> bool, retry: nat -> nat -> bool)

  /** The cap on loop iterations. */
  const MaxAttempts: nat := 10

  /** The number of locators `click_load_more` tries. */
  const ButtonSelectorCount: nat := 3

  /** `click_load_more`: the locators are tried in order and the first that clicks wins. */
  method ClickLoadMore(locatorClicks: nat -> bool) returns (clicked: bool)
    ensures clicked <==> AnySucceeds(ButtonSelectorCount, locatorClicks)
  {
    var index;
    clicked, index := TryInOrder(ButtonSelectorCount, locatorClicks);
  }

  /** Why the loop ended. */
  datatype LoadStop = AttemptsExhausted | AllLoaded | ClickFailed

  /** The attempt at which the loop ended, and why. */
  datatype LoadMore = LoadMore(attempts: nat, stop: LoadStop)

  /** The loop ends at this attempt because nothing new appeared and the button is gone. */
  predicate AllShown(b: Browser, attempt: nat, previous: nat) {
    b.count(attempt) == previous && !b.buttonPresent(attempt)
  }

  /** Either the first click or its single retry went through. */
  predicate Clicked(b: Browser, attempt: nat) {
    AnySucceeds(ButtonSelectorCount, b.firstTry(attempt)) || AnySucceeds(ButtonSelectorCount, b.retry(attempt))
  }

  /** The load-more loop from `attempt` on, `previous` being the count kept from the last iteration. */
  function LoadMoreFrom(b: Browser, attempt: nat, previous: nat): LoadMore
    decreases MaxAttempts - attempt
  {
    if attempt >= MaxAttempts then LoadMore(attempt, AttemptsExhausted)
    else if AllShown(b, attempt, previous) then LoadMore(attempt, AllLoaded)
    else if !Clicked(b, attempt) then LoadMore(attempt, ClickFailed)
    else LoadMoreFrom(b, attempt + 1, b.count(attempt))
  }

  function LoadAll(b: Browser): LoadMore {
    LoadMoreFrom(b, 0, 0)
  }

  /** The count an attempt compares against: 0 at first, then the count read at the attempt before. */
  function PreviousCount(b: Browser, attempt: nat): nat {
    if attempt == 0 then 0 else b.count(attempt - 1)
  }

  /** Attempt `k` ran to its end and the loop went on. */
  predicate Continued(b: Browser, k: nat) {
    !AllShown(b, k, PreviousCount(b, k)) && Clicked(b, k)
  }

  /**
   * The loop runs at most `MaxAttempts` attempts.  Every attempt before
   * the last compared its count with the count of the attempt before it,
   * found new products or the button, and clicked it (at most one retry).
   * It stops early only when the count did not change and the button is
   * gone, or when a click and its retry both failed.
   */
  lemma {:induction false} LoadMoreTrace(b: Browser, attempt: nat)
    requires attempt <= MaxAttempts
    ensures var r := LoadMoreFrom(b, attempt, PreviousCount(b, attempt));
            && attempt <= r.attempts <= MaxAttempts
            && (r.stop == AttemptsExhausted <==> r.attempts == MaxAttempts)
            && (forall k :: attempt <= k < r.attempts ==> Continued(b, k))
            && (r.stop == AllLoaded ==> AllShown(b, r.attempts, PreviousCount(b, r.attempts)))
            && (r.stop == ClickFailed
                ==> !AllShown(b, r.attempts, PreviousCount(b, r.attempts)) && !Clicked(b, r.attempts))
    decreases MaxAttempts - attempt
  {
    if attempt < MaxAttempts && !AllShown(b, attempt, PreviousCount(b, attempt)) && Clicked(b, attempt) {
      LoadMoreTrace(b, attempt + 1);
      assert PreviousCount(b, attempt + 1) == b.count(attempt);
    }
  }

  /** An unchanged count with the button still shown does not stop the loop. */
  lemma UnchangedCountWithButtonContinues(b: Browser, attempt: nat, previous: nat)
    requires attempt < MaxAttempts && b.count(attempt) == previous && b.buttonPresent(attempt)
    requires AnySucceeds(ButtonSelectorCount, b.firstTry(attempt))
    ensures LoadMoreFrom(b, attempt, previous) == LoadMoreFrom(b, attempt + 1, previous)
  {
  }

  /** The "Mostrar mais" loop with its attempt counter and remembered count. */
  method LoadAllProducts(b: Browser) returns (r: LoadMore)
    ensures r == LoadAll(b)
  {
    var attempt: nat := 0;
    var previousCount: nat := 0;
    while attempt < MaxAttempts
      invariant attempt <= MaxAttempts
      invariant LoadMoreFrom(b, attempt, previousCount) == LoadAll(b)
      decreases MaxAttempts - attempt
    {
      var currentCount := b.count(attempt);
      if currentCount == previousCount {
        if !b.buttonPresent(attempt) {
          return LoadMore(attempt, AllLoaded);
        }
      }
      previousCount := currentCount;
      var clicked := ClickLoadMore(b.firstTry(attempt));
      if !clicked {
        clicked := ClickLoadMore(b.retry(attempt));
        if !clicked {
          return LoadMore(attempt, ClickFailed);
        }
      }
      attempt := attempt + 1;
    }
    return LoadMore(attempt, AttemptsExhausted);
  }

  // ---------------------------------------------------------- extraction

  const AuroraBase: string := "https://www.aurora.com.br"
  const Header: seq<string> := ["Descri\U{E7}\U{E3}o", "Link"]

  /** The nearest `a` ancestor whose class holds the store-link class, with its href if any. */
  datatype StoreLink = StoreLink(href: Option<string>)

  /** A product name span: its text and its enclosing store link, if there is one. */
  datatype NameSpan = NameSpan(text: string, link: Option<StoreLink>)

  /**
   * `urljoin(base_url, href)`; a link without href joins to the base
   * itself, as joining to an empty reference does.
   */
  function ProductUrl(link: StoreLink): string {
    Resolve(AuroraBase, link.href.GetOr(""))
  }

  /** The row a product name yields: its stripped text and the joined link, or none without a link. */
  function SpanRow(span: NameSpan): (r: Option<seq<string>>)
    ensures r.Some? <==> span.link.Some?
    ensures r.Some? ==> |r.value| == |Header| && r.value[0] == Strip(span.text)
  {
    if span.link.Some? then Some([Strip(span.text), ProductUrl(span.link.value)]) else None
  }

  /** The CSV the script writes: the header, then one row per linked name in document order. */
  function ProductTable(spans: seq<NameSpan>): Table {
    Table(Header, FilterMap(spans, SpanRow))
  }

  /** The extraction loop, counting the rows it writes. */
  method ExtractProducts(spans: seq<NameSpan>) returns (table: Table, productsFound: nat)
    ensures table == ProductTable(spans)
    ensures productsFound == |table.rows|
  {
    var rows: seq<seq<string>> := [];
    productsFound := 0;
    var i := 0;
    while i < |spans|
      invariant i <= |spans|
      invariant rows == FilterMap(spans[..i], SpanRow)
      invariant productsFound == |rows|
    {
      FilterMapStep(spans, i, SpanRow);
      var description := Strip(spans[i].text);
      var parentLink := spans[i].link;
      if parentLink.Some? {
        var fullUrl := Resolve(AuroraBase, parentLink.value.href.GetOr(""));
        rows := rows + [[description, fullUrl]];
        productsFound := productsFound + 1;
      }
      i := i + 1;
    }
    assert spans[..i] == spans;
    table := Table(Header, rows);
  }

  /** Exactly the names with a store link give a row, and every row has the two header columns. */
  lemma ProductTableRows(spans: seq<NameSpan>)
    ensures forall row :: (row in ProductTable(spans).rows
                           <==> exists i :: 0 <= i < |spans| && spans[i].link.Some?
                                            && row == [Strip(spans[i].text), ProductUrl(spans[i].link.value)])
    ensures forall row :: row in ProductTable(spans).rows ==> |row| == |ProductTable(spans).header|
  {
    FilterMapMembers(spans, SpanRow);
  }

  /** The site address has a scheme and a host and nothing after them. */
  lemma ParseAuroraBase()
    ensures Parse(AuroraBase) == Uri(Some("https"), Some("www.aurora.com.br"), "", None, None)
  {
    SiteAddress("https", "www.aurora.com.br", AuroraBase);
  }

  /**
   * A root-relative href is appended to the site address.  One with
   * another scheme, or with "https" and a host, is kept.  Any other
   * without a host of its own ("produto.html", "https:/produto") lands
   * on the site.
   */
  lemma ProductUrlCases(link: StoreLink)
    requires link.href.Some?
    ensures var h := link.href.value;
            h != [] && h[0] == '/' && !("//" <= h) ==> ProductUrl(link) == AuroraBase + h
    ensures KeptAsWritten(Parse(AuroraBase), Parse(link.href.value)) ==> ProductUrl(link) == link.href.value
    ensures !KeptAsWritten(Parse(AuroraBase), Parse(link.href.value)) && !HasHost(Parse(link.href.value))
            ==> AuroraBase <= ProductUrl(link)
  {
    var h := link.href.value;
    ParseAuroraBase();
    assert ProductUrl(link) == Resolve(AuroraBase, h);
    if h != [] && h[0] == '/' && !("//" <= h) {
      ConcatMatchesResolve(AuroraBase, h);
    }
    if !KeptAsWritten(Parse(AuroraBase), Parse(h)) && !HasHost(Parse(h)) {
      ResolveStaysOnSite(AuroraBase, h);
    }
  }

  /** A link without an href points at the site address itself. */
  lemma ProductUrlWithoutHref(link: StoreLink)
    requires link.href.None?
    ensures ProductUrl(link) == AuroraBase
  {
    ParseAuroraBase();
    var r := Parse("");
    assert r == Uri(None, None, "", None, None) by {
      assert Scan("", SchemeEnd) == ([], []);
      assert Scan("", PathEnd) == ([], []);
    }
    assert ResolveUri(Parse(AuroraBase), r) == Parse(AuroraBase);
  }
}
