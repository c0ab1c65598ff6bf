# Product scrapers, modelled in Dafny

This project models the decision logic of seven catalogue scrapers. Each one
loads a shop's result pages in a browser, pulls product records out of the
parsed markup, and normalises, filters and deduplicates them before writing
them out:

- `mistral.py`: a wine crawler with a bounded page loop, a scroll loop, two
  extraction passes, a five-test wine filter and deduplication by URL.
- `aurora.py`: a "Mostrar mais" loop with a count check and one retry, then
  name/link extraction.
- `karamell.py`: pages 1 to 8, a timed-out page is skipped, and a URL
  fallback chain per card.
- `zonasul.py`: click until the button is gone, then description, price and
  URL per product.
- `santaluzia.py`: numbered pages until a "not found" or empty page, then
  description, price and URL per product.
- `pao.py`: card, title-container and `/produto/` link filters.
- `angeloni.py`: whitespace/lower-case normalisation and the
  "americano" + "vinho"/"whisky" test.

The browser and the HTML parser are replaced by inputs:

- What the browser would report is a function from page number, loop round
  or page address to the parsed page, product count, button presence, click
  outcome or page height.
- What BeautifulSoup would locate is an abstract record with optional
  fields: a missing element is `None`, an absent attribute is `None`.
- A span read with `get_text(strip=True)` is the sequence of its text
  pieces. Each piece is stripped, blank pieces are dropped, and the rest are
  joined with nothing between them (`Text.StrippedText`).
- Written CSV files are a `Table` (header and rows). Printed lines are a
  sequence of strings.

Each script's loops are `method`s with loop invariants. Each method is proved
equal to a recursive specification function. The properties of the
scripts are lemmas about those functions. Shared modules:

- `Common`: filters, the page concatenation `PagesThrough`, BeautifulSoup's
  `find` (`FirstMatch`), and the try-the-locators-in-order loop.
- `Text`: Python's `strip`, `lower`, `re.sub(r'\s+', ' ', ·)`, the `in`
  test, and `str(n)`.
- `Urls`: `urlparse`/`urljoin`, following the component split of
  Appendix B of RFC 3986 with the schemes `urlsplit` accepts, and the
  reference resolution of section 5.2.2 of RFC 3986. As `urljoin` does,
  a reference that repeats the base's scheme without a host, or that has
  an empty host, is joined to the base's host.
- `Fields`: the "N/A" placeholder, price concatenation and the
  Description/Price/URL record.

The page loops of `mistral.py` and `karamell.py` are proved against any
function that gives each page's contribution (`Mistral.KeepsPageOutput`,
`Karamell.KeepsPageRows`). The outer methods (`Mistral.ExtractWineData`,
`Karamell.Run`) instantiate it with the real per-page function.

Two scripts put the site address in front of the href by plain
concatenation rather than `urljoin` (`zonasul.py:66`, `santaluzia.py:66`).
The model does the same, so an absolute href gives a doubled address.
`Zonasul.ProductUrlIsJoin` shows that both agree for the root-relative hrefs
the stores use.

## Model

| member | source | states |
|---|---|---|
| Common.TryInOrder | aurora.py:42-54 | The locators are tried in order. The click succeeds exactly when some locator succeeds. The reported locator is the first that succeeded, and every earlier one failed. |
| Common.FilterKeepsExactly | mistral.py:266-297 | An item is kept exactly when it is in the input and passes the test. The kept items are a subsequence of the input, in input order. |
| Common.FilterMapMembers | aurora.py:123-138 | A row is produced exactly when some input element yields it. |
| Common.FilterThenFilterMap | pao.py:31-58 | A row comes out of the selected elements exactly when some selected element yields it. |
| Common.PagesInOrder | karamell.py:28-79 | The rows gathered through an earlier page are a prefix of the rows gathered through a later one. |
| Common.PagesMembers | santaluzia.py:47-76 | An item is gathered exactly when it belongs to one of the pages walked through. |
| Common.FirstMatch | pao.py:43-47 | `find` gives nothing exactly when no element passes. Otherwise it gives the first element that passes. |
| Text.Strip | aurora.py:125 | The result has no leading or trailing whitespace. It is the input minus a whitespace-only prefix and a whitespace-only suffix. |
| Text.StripIdempotent | angeloni.py:28 | Stripping a stripped text changes nothing. |
| Text.Lower | angeloni.py:30 | Same length. Every capital becomes the character 32 code points above it, no capital is left, and every other character (whitespace included) is kept. |
| Text.LowerAppend | angeloni.py:30 | Lower-casing a concatenation lower-cases each part. |
| Text.Collapse | angeloni.py:30 | The result is empty exactly when the input is, is no longer, and starts with the input's first character or with ' ' for leading whitespace. |
| Text.CollapseForm | angeloni.py:30 | Every whitespace character of the result is ' ', and no two whitespace characters are adjacent. |
| Text.CollapseWord | angeloni.py:30 | A text with no whitespace is left unchanged. |
| Text.CollapseAppend | angeloni.py:30 | A text ending in non-whitespace collapses separately from what follows. |
| Text.CollapseRun | angeloni.py:30 | A whitespace run between two words becomes exactly one ' ' in place: `a + w + b` collapses to `a`, ' ', `b` collapsed. |
| Text.CollapseKeepsText | angeloni.py:30 | Collapsing keeps the non-whitespace characters, in order. |
| Text.CollapseIdempotent | angeloni.py:30 | Collapsing a collapsed text changes nothing. |
| Text.ContainsIff | angeloni.py:31-32 | The `in` test holds exactly when the word occurs as a contiguous block. |
| Text.StrippedText | angeloni.py:28 | `get_text(strip=True)`: the result starts and ends with non-whitespace, and is empty exactly when every text piece strips to empty. |
| Text.StrippedTextSingle | zonasul.py:53 | A span with a single text piece gives that piece stripped. |
| Text.StrippedTextStripped | santaluzia.py:51 | The joined text is already stripped. |
| Text.StrippedTextAppend | angeloni.py:28 | The pieces of two runs of text give the two joined texts, concatenated. |
| Text.StrippedTextJoinsWords | angeloni.py:28 | Two words in separate pieces are joined with no space, even when whitespace followed the first. |
| Text.NatToString | karamell.py:30 | A page number is written as decimal digits with no leading zero. |
| Text.NatToStringRoundTrip | karamell.py:30 | The digits of a page number read back as that number. |
| Urls.Parse | mistral.py:64 | Writing the five components back gives the URL again. The scheme is the text before the first ':' when it starts with an ASCII letter and holds only ASCII letters, digits, '+', '-' and '.'. There is no scheme exactly when the URL does not start that way. There is a host exactly when "//" follows the scheme. The path holds no '?' or '#', the query no '#', and a path after a host starts with '/'. |
| Urls.Resolve | pao.py:53 | A reference is returned as written when its scheme differs from the base's, or when it repeats the base's scheme and has a host. Any other reference gives a URL that starts with the base's scheme. It also starts with the base's host when the reference has no host or an empty one. The result ends with the reference's fragment. |
| Urls.ResolveAbsolute | mistral.py:157-159 | A reference with another scheme than the base's, or with the same scheme and a host, joins to itself. |
| Urls.ResolveRootRelative | mistral.py:156-157 | An href with one leading '/' is put after the base's scheme and host. |
| Urls.ResolvePathRelative | mistral.py:158-159 | A path-relative href is put after the base's directory. |
| Urls.NoSchemeWithForeignChar | mistral.py:159 | A URL with a character other than an ASCII letter, digit, '+', '-' or '.' before its first ':' has no scheme, so it is joined as a relative reference. |
| Urls.ParseOrigin | mistral.py:64-65 | `scheme://netloc` parses back to that scheme and host with nothing after them. |
| Urls.OriginResolvesLikePage | mistral.py:154-159 | Joining a '/' href to `scheme://netloc` gives what joining it to the page URL gives. The one exception is an empty host with no path ("//"), which keeps the base's path. |
| Urls.ConcatMatchesResolve | zonasul.py:66 | For a bare site address and a root-relative href, concatenation is the join. |
| Urls.ResolveUriHostOnly | pao.py:53 | Against a bare scheme and host, the joined URL is a prefix followed by the reference as written. The only parts left out are the base's own scheme and an empty host, which `urljoin` drops. |
| Urls.ResolveEndsWithRef | pao.py:53-56 | An href is what `urljoin` drops from it followed by the rest. The dropped part is nothing, the base's scheme, "//", or both. Joining the href to a bare site address leaves the rest at the end of the URL. |
| Urls.DroppedShape | pao.py:53 | What `urljoin` drops from a reference is nothing, the base's scheme, an empty host "//", or the two together. |
| Urls.WrittenKeepsText | pao.py:53-56 | Text that starts with '/' and a character that does not end a path segment is still in what `urljoin` keeps of a reference that holds it. |
| Urls.HostOnlyKeepsText | pao.py:53-56 | Such text in an href is still in the URL the href joins to against a bare site address. |
| Urls.ResolveStaysOnSite | aurora.py:132-134 | A reference joined to the host of a bare site address gives a URL that starts with that address. |
| Urls.ResolveNonEmpty | karamell.py:66-73 | Joining to a URL with a scheme never gives an empty URL. |
| Urls.SiteAddress | aurora.py:121 | `scheme://host` parses to that scheme and host and nothing else. |
| Fields.RecordTableReadsBack | zonasul.py:80-87 | One row per record, in order. Each row has one value per column and reads back as its record. |
| Fields.NumericPriceReadsBack | zonasul.py:59-60 | A price from digit, "," and digit spans is never "N/A". It splits back at the comma into the stripped integer and fraction. |
| Fields.MissingPartIsNotAvailable | santaluzia.py:57-60 | A missing price span gives "N/A", which does not split as a price. |
| Fields.SpanTextStripped | santaluzia.py:50-51 | A description is always already stripped. For a present span it is empty exactly when every text piece of the span is blank. |
| Mistral.ResolveHrefIsUrljoin | mistral.py:153-161 | For a page URL with a scheme and a host, the three-way rule is `urljoin` against the page URL. This holds for every href with a leading "http" that `urljoin` keeps as written: its "http" begins a scheme other than the page's, or the page's scheme followed by a host. It also holds for every '/' href other than an empty host with no path ("//"). |
| Mistral.ProductItem | mistral.py:150-169 | A product container yields a record only when it has both a title and a link. The record's title is the stripped title text, and its URL contains "vinho". |
| Mistral.ResolveHrefRootRelative | mistral.py:156-157 | An href with one leading '/' is appended to `scheme://netloc`. |
| Mistral.FirstLink | mistral.py:182-207 | The link used is the one of the nearest ancestor, among the first 5, that has one. The ancestors before it have none. Nothing is found when none of the first 5 has a link. |
| Mistral.TitleItemUsesNearestLink | mistral.py:186-204 | A title yields a record exactly when its nearest linked ancestor's link resolves to a URL containing "vinho". Links further up are never consulted. |
| Mistral.TitleItemNeedsNearLink | mistral.py:183-186 | A title with no link among its first 5 ancestors yields nothing. |
| Mistral.PageItemsMarked | mistral.py:163-169 | Every record of a page has "vinho" in its URL and a stripped title. |
| Mistral.PrimaryItemsFound | mistral.py:144-172 | The first pass finds something exactly when some product container yields a record. |
| Mistral.FallbackWhenNoProductRecord | mistral.py:172 | The title pass is used exactly when no product container yielded a record. |
| Mistral.FindAncestorLink | mistral.py:182-207 | The bounded ancestor walk returns exactly `FirstLink`. |
| Mistral.ExtractProductItems | mistral.py:142-169 | The container loop returns the container records in document order. |
| Mistral.ExtractTitleItems | mistral.py:176-207 | The title loop returns the title records in document order. |
| Mistral.ExtractFromPage | mistral.py:127-209 | The container pass, or the title pass when the first found nothing. |
| Mistral.ParenGroupIff | mistral.py:291 | `\([^)]+\)` matches exactly when a '(' is followed by a non-')' and later by a ')'. |
| Mistral.YearMakesWineTitle | mistral.py:272 | Any title with a vintage year standing as a word of its own passes the filter. |
| Mistral.FilterWineProducts | mistral.py:256-297 | The loop keeps exactly the items whose title passes one of the five tests, in input order. |
| Mistral.UrlSetMembers | mistral.py:110-114 | The seen-set holds exactly the URLs of the items read so far. |
| Mistral.DedupOnePerUrl | mistral.py:110-115 | No URL occurs twice in the output, and every input URL is kept. |
| Mistral.DedupSubsequence | mistral.py:110-115 | The output is a subsequence of the input, in input order. |
| Mistral.DedupKeepsFirst | mistral.py:113-115 | The first item of every URL is kept. |
| Mistral.DedupKeepsOnlyFirst | mistral.py:113-115 | Only first items of their URL are kept. |
| Mistral.DedupByUrl | mistral.py:109-115 | The loop with its seen-set computes the deduplication. |
| Mistral.ClickNextPage | mistral.py:211-254 | The click succeeds exactly when one of the 8 locators succeeds. |
| Mistral.CrawlBounds | mistral.py:49-104 | Consecutive pages from the first, never past `max_pages`. The loop moves on only after a clicked next link. A normal stop before the limit is at a missing next link. An error stops at the failing page. |
| Mistral.CrawlStopsAt | mistral.py:80-89 | At the limit or at a missing next link, the current page is the last one processed. |
| Mistral.CrawlMovesOn | mistral.py:85-104 | After a clicked next link, the current page's items come before those of the following pages. |
| Mistral.ProcessPage | mistral.py:60-77 | A loaded page contributes its extracted items that pass the wine filter. |
| Mistral.CrawlPages | mistral.py:49-104 | The page loop gathers exactly the page-by-page crawl, and reports whether it aborted. |
| Mistral.ExtractWineData | mistral.py:14-125 | The result is the deduplicated items, or the raw gathered items when a page raised. |
| Mistral.ScrollBounds | mistral.py:307-328 | At most 20 cycles and at most two readings per cycle. The loop stops early exactly when the height settled. Then the first no-change reading and the extra one both equal the kept height. When no cycle ran, the kept height is the initial one. |
| Mistral.ScrollStaticPage | mistral.py:319-326 | A page that never grows stops the loop in its first cycle. |
| Mistral.ScrollGrowingPage | mistral.py:313-328 | A page that always grows runs all 20 cycles. |
| Mistral.ScrollLoop | mistral.py:299-328 | The scroll loop computes `ScrollToBottom`. |
| Aurora.ClickLoadMore | aurora.py:33-57 | The click succeeds exactly when one of the 3 locators succeeds. |
| Aurora.LoadMoreTrace | aurora.py:60-96 | At most 10 attempts. Each attempt that went on had a new count or a visible button, and a click that went through on the first try or its single retry. It stops early only when the count is unchanged with no button, or when both clicks failed. |
| Aurora.UnchangedCountWithButtonContinues | aurora.py:72-78 | An unchanged count with the button still shown does not stop the loop. |
| Aurora.LoadAllProducts | aurora.py:59-96 | The loop computes `LoadAll`. |
| Aurora.ExtractProducts | aurora.py:116-138 | The rows are the linked names in order, and `products_found` is the number of rows. |
| Aurora.ProductTableRows | aurora.py:118-138 | A row is written exactly for a name inside a store link: its stripped text and the joined href. Every row has the two header columns. |
| Aurora.ProductUrlCases | aurora.py:132-134 | A root-relative href is appended to the site address. An href is kept when its scheme is not "https", or when it is "https" with a host. Any other href without a host of its own gives a URL that starts with the site address. |
| Aurora.SpanRow | aurora.py:124-136 | A product name yields a row exactly when it has a store link. The row has the header's two columns and starts with the stripped name. |
| Aurora.ProductUrlWithoutHref | aurora.py:132-134 | A store link without an href joins to the site address itself. |
| Karamell.Run | karamell.py:22-79 | The CSV holds the header and the rows of pages 1 to 8 in page order, and `total_products` is their number. |
| Karamell.Scrape | karamell.py:27-79 | Pages 1 to 8 are visited in order at their addresses. Rows follow page order, and `total_products` counts them. |
| Karamell.ScrapePage | karamell.py:49-79 | A page that loaded in time contributes the rows of its cards. |
| Karamell.ExtractCards | karamell.py:54-79 | The card loop writes the cards' rows in order and counts them. |
| Karamell.CardUrlGiven | karamell.py:60-70 | A card has a URL exactly when it has a non-empty `data-product-url` or a product link with an href. |
| Karamell.CardRowIff | karamell.py:57-78 | A card gives a row exactly when it has a name and a URL source. The row is the name and the URL. |
| Karamell.CardUrlRootRelative | karamell.py:68-70 | A root-relative `data-product-url` is appended to the site address. |
| Karamell.PageUrlInjective | karamell.py:30 | Distinct page numbers have distinct addresses. |
| Karamell.TimedOutPageAddsNothing | karamell.py:35-42 | A page that timed out adds no row. |
| Karamell.RowsInPageOrder | karamell.py:28-79 | The rows of earlier pages come first. |
| Karamell.PageRowsWellFormed | karamell.py:73-78 | Every row of a page has two non-empty columns. |
| Karamell.RowsWellFormed | karamell.py:73-78 | Every row written has two non-empty columns. |
| Karamell.RowsFromCards | karamell.py:49-78 | A row is written exactly when a card of a page that loaded in time gives it. |
| Zonasul.ClickUntilGone | zonasul.py:24-38 | The loop stops at the first round that does not click, having clicked in every round before. |
| Zonasul.ClickCountUnique | zonasul.py:24-38 | The number of clicks is determined by the browser alone. |
| Zonasul.ExtractProducts | zonasul.py:47-74 | Exactly one record per product anchor, in document order. |
| Zonasul.ProductFileRows | zonasul.py:80-87 | Columns Description, Price, URL. One row per anchor, each reading back as that anchor's record. |
| Zonasul.DescriptionPrefersProductBrand | zonasul.py:50-53 | With a product-brand span the brand-name span is never used. The description is stripped. |
| Zonasul.ProductUrlReadsBack | zonasul.py:65-66 | "N/A" exactly for a missing or empty href. Otherwise the site address followed by the href as written. |
| Zonasul.ProductUrlIsJoin | zonasul.py:64-66 | For a root-relative href, the concatenation equals `urljoin`. |
| Santaluzia.ExtractAll | santaluzia.py:19-76 | It stops at the first page that shows "not found" or has no gallery item. It keeps the records of exactly the pages before it, in page order. |
| Santaluzia.ExtractPage | santaluzia.py:48-74 | One record per gallery item, in order. |
| Santaluzia.PageUrlInjective | santaluzia.py:20-24 | Distinct page numbers (page 1 included) have distinct addresses. |
| Santaluzia.RecordsInPageOrder | santaluzia.py:70-76 | Records of earlier pages come first. |
| Santaluzia.RecordsComeFromPages | santaluzia.py:47-76 | A record is kept exactly when it is the record of a gallery item on a page walked through. |
| Santaluzia.ItemUrlReadsBack | santaluzia.py:63-68 | "N/A" exactly when there is no anchor with an href. Otherwise the site address followed by the href as written. |
| Pao.ExtractProducts | pao.py:38-58 | The rows of the cards in order, and `products_found` is their number. |
| Pao.ProductLinkUrlKeepsPath | pao.py:47-56 | For a product link whose href has no "." or ".." segment, the joined URL still mentions "/produto/", so the second test does not reject it. |
| Pao.CardRowIff | pao.py:41-58 | A card gives a row exactly when its first title container holds a product link whose joined URL still mentions "/produto/". The row is that link's stripped text and joined URL. A link with no dot segment always gives a row. |
| Pao.RootRelativeLinkUrl | pao.py:53 | A root-relative href is appended to the site address. |
| Pao.ProductTableRows | pao.py:31-58 | Exactly the rows of the product cards are written, each with the two header columns. |
| Angeloni.NormalizeForm | angeloni.py:30 | The normalised text has single spaces as its only whitespace and no capital. Its visible characters are those of the description, lower-cased. |
| Angeloni.NormalizeWord | angeloni.py:30 | A description with no whitespace is only lower-cased. |
| Angeloni.NormalizeRun | angeloni.py:30 | A whitespace run between two words becomes one ' ', and the two sides are normalised on their own. |
| Angeloni.NormalizeIdempotent | angeloni.py:30 | Normalising twice equals normalising once. |
| Angeloni.AcceptsNormalized | angeloni.py:30-32 | The test does not depend on letter case or whitespace runs. |
| Angeloni.PrintedLinesSpec | angeloni.py:24-35 | With no span, only the message is printed. Otherwise a line is printed exactly when it is a span's joined stripped text (not normalised) and it passes the test. Lines keep the spans' order. |

## Left out

- Browser and parser I/O is not modelled: driver set-up, navigation, waits,
  `time.sleep`, `execute_script`, `page_source` and BeautifulSoup parsing.
  Their results are inputs.
- Class matching is not modelled. The model does not cover BeautifulSoup's
  `class_` matching on multi-valued class attributes (`pao.py:31`,
  `pao.py:43`, `aurora.py:113`, `aurora.py:128`, `mistral.py:142`). A card,
  title container or product container is given. `Pao.IsCard` and
  `Pao.IsTitleContainer` test the class attribute as one string.
- CSV files are modelled as a header and rows. File names, encodings and
  open failures are not modelled.
- Console output is not modelled, except `angeloni.py`, whose printed lines
  are its output. This covers progress messages, counts, the elapsed time
  (`zonasul.py:19`, `zonasul.py:77`) and the 23-product warning
  (`aurora.py:147-152`).
- Urls.Resolve: `urljoin`'s dot-segment removal, its scheme lists and its
  `;params` handling are not modelled. Dot segments are kept as written.
  This is why Pao.ProductLinkUrlKeepsPath and the last clause of
  Pao.CardRowIff ask for an href with no "." or ".." segment.
- Urls.Resolve: `urljoin` drops empty path segments when it merges paths.
  The model keeps them.
- Urls.Resolve: `urljoin` drops an empty query ("?") or fragment ("#").
  The model writes the delimiter back.
- Urls.Resolve: for an empty reference, `urljoin` returns the base with
  its fragment. The model applies the RFC 3986 rule instead.
- Urls.Parse: `urlsplit` lower-cases the scheme it finds. The model
  keeps the scheme as written, so that writing the components back gives
  the input again.
- Urls.Resolve: inherits this, because the model compares schemes as
  written. `urljoin` compares a reference's scheme lower-cased with the
  base's. When they match and the reference has a host, `urljoin` writes
  it back lower-cased: against an https page "HTTPS://y.com/p" becomes
  "https://y.com/p". When they match and it has no host, `urljoin` joins
  it to the base's host: "HTTPS:/p" becomes "https://host/p". The model
  keeps both references unchanged.
- Urls.Parse: `urlsplit` removes leading C0 controls and spaces, and every
  tab, CR and LF. The model does not.
- Urls.Parse: `urlsplit` raises ValueError for a "[" in the host with no
  matching "]". The model never fails.
- Text.Lower: only ASCII and Latin-1 capitals are lowered. Other Unicode
  case mappings are not modelled.
- Mistral.IsWordChar: `\w` covers '_' and the ASCII and Latin-1 letters
  and digits only, the superscript digits and fractions included.
  Characters beyond Latin-1 are not covered.
- Mistral.YearAt: `\d` is modelled as the ASCII digits. Python's `\d` also
  matches the other Unicode decimal digits, none of which is in Latin-1.
- Zonasul.ClickUntilGone requires some round that does not click. The
  script itself loops forever when the button never goes away.
- Santaluzia.ExtractAll requires some page that ends the walk. The script
  itself loops forever otherwise.
- An initial wait that times out is not modelled. In `pao.py:17-18`,
  `aurora.py:20-21` and `angeloni.py:15-16` such a timeout is uncaught and
  ends the script before any output.
- Karamell.CardRow: the per-card `except` in `karamell.py:86-88` is not
  modelled. In the script, `urljoin` raising ValueError on an unmatched "["
  in a host (`karamell.py:67`, `karamell.py:70`) skips the card. The model
  writes a row for it.
- Mistral.CrawlPages: the wait for the next page (`mistral.py:91-101`) is
  not modelled; it swallows its own timeout and changes no state. The scroll
  loop is modelled on its own (`Mistral.ScrollLoop`) and not called from
  the page loop, because its only effect is on page content, which the page
  input already gives.
- Mistral.ExtractWineData: any exception inside the loop is modelled as a
  page that fails to load, which ends the loop with the items gathered so
  far. The 8 pagination locators catch their own errors (`mistral.py:249`),
  as the 3 load-more locators of `aurora.py` do (`aurora.py:51`).
- The `save_to_file` and `print_debug_info` helpers of `mistral.py` are not
  modelled.
