# scraper_iphone: a Dafny model

This project models the core of `scraper_iphone.py`, the scraper of a
phone-parts catalogue (visiodirect-mobile.com). The core is three steps:

- **`clean_price`** turns a price text into a number. The text is
  lower-cased. `€` and `ttc` are deleted, every `.` is deleted, every `,`
  becomes `.`, and the result is stripped and parsed. The sentinel `"N/A"`
  and anything that does not parse are worth 0.
- **`scrape_model_page`** walks the paginated listing of one phone model
  and extends the caller's product list with one row per product
  container. Page 1 is the model URL. Page `n > 1` is the model URL with
  `.html` rewritten to `-p<n>.html`. Page 1's pagination links set the
  number of pages. The walk ends at a page that cannot be fetched, at an
  empty page 1, or at a later page that gave no row.
- **`export_to_csv`** reprices every row in place. Four price columns are
  added and `price_float` is removed. The client price is
  `ceil((price × margin + labour) × VAT)`. The list is then sorted stably
  by lower-cased model and component name. The column list is nine fixed
  names followed by every other key, sorted.

The modules are:

- `Wrappers`: `Option`.
- `Strings`: the Python `str` operations the code uses: `lower`, `strip`,
  `replace`, `startswith`, the cut of `split(':', 1)` (the first `:`),
  `str()` of an integer and `<` on strings. Each is described by its
  contract or by the lemmas beside it. `Count` is not a source operation;
  it only serves to state what the others keep.
- `Prices`: `clean_price`.
- `Records`: the row type (a `dict` becomes a `map` from column name to a
  cell), the column names, and `ProductList`. `ProductList` is a class
  holding the caller's list, which the scraper extends and the exporter
  rewrites in place.
- `Catalog`: `scrape_model_page`. The network is a parameter `fetch` from
  URL to an optional parsed page (`None` is `get_soup` giving up). A page
  is what BeautifulSoup would have selected from it: its product
  containers and its pagination `href`s.
- `RowOrder`: the sort order, the sort itself and the column list.
- `Export`: `export_to_csv`.

Each loop of the source is a method proved against a function that states
what it computes:

| method | specification |
|---|---|
| `ScrapeModelPage` | `Rows(Crawl(...))` |
| `ExtractProducts` | `ExtractAll` |
| `DiscoverTotalPages` | `MaxPageNumber` |
| `RepriceRows` | `RepriceAll` / `FirstUnpriced` |
| `CollectKeys` | `KeysOf` |
| `ExportToCsv` | `SortRows` of `RepriceAll`, then `Fieldnames` of `KeysOf` |

Lemmas then prove what the source promises about those functions.

Some things the code does may surprise a reader:

- `"N/A"` is matched exactly, not case-insensitively.
- The code does not detect the decimal convention. Every `.` is deleted and
  every `,` becomes the decimal point, so `"12.50"` reads as 1250
  (`CleanPriceDotIsDeleted`).
- Characters other than digits and `.` are not removed before the parse.
- There is no division by 100 of large prices written without a separator.
- The client price is the ceiling of the unrounded intermediate price, not
  of the rounded one.
- An empty input returns `None` and leaves the list as it is.

## Model

| member | source | states |
|---|---|---|
| `Prices.CleanPrice` | scraper_iphone.py:31-37 | `"N/A"` is worth 0; otherwise a cleaned text that parses gives its value (and 0 when it does not, `CleanPriceUnparsable`) |
| `Prices.ParseDecimalAcceptsExactly` | scraper_iphone.py:36-37 | the parse succeeds exactly on an optional sign followed by digits with at most one `.` and at least one digit |
| `Prices.ParseDigits` | scraper_iphone.py:36 | a digit string parses to its decimal value |
| `Prices.ParseFixedPoint` | scraper_iphone.py:36 | `units.fraction` parses to units plus fraction / 10^len(fraction) |
| `Prices.ParseNegativeFixedPoint` | scraper_iphone.py:36 | `-units.fraction` parses to minus units plus fraction / 10^len(fraction) |
| `Prices.CleanTextDecimalComma` | scraper_iphone.py:35 | the cleaned text of `"<units>,<cents> €"` is `units.cents` |
| `Prices.CleanTextThousands` | scraper_iphone.py:35 | the cleaned text of `"<t>.<u>,<c> €"` is `tu.c` |
| `Prices.CleanTextNegativeDecimalComma` | scraper_iphone.py:35 | the cleaned text of `"-<units>,<cents> €"` is `-units.cents` |
| `Prices.CleanPriceNegativeDecimalComma` | scraper_iphone.py:34-36 | `"-<units>,<cents> €"` is worth minus units + cents / 10^len(cents) |
| `Prices.CleanTextSeparators` | scraper_iphone.py:35 | after cleaning no `,` is left, and there are as many `.` as the raw text had `,` |
| `Prices.CleanPriceDecimalComma` | scraper_iphone.py:34-36 | `"<units>,<cents> €"` is worth units + cents / 10^len(cents) |
| `Prices.CleanPriceThousands` | scraper_iphone.py:34-36 | `"<t>.<u>,<c> €"`: the `.` is a thousands separator and the `,` the decimal point |
| `Prices.CleanPriceDotIsDeleted` | scraper_iphone.py:34-36 | `"<a>.<b>"` is worth the integer written `ab`: a lone `.` is deleted, not read as a decimal point |
| `Prices.CleanPriceUnparsable` | scraper_iphone.py:36-37 | a cleaned text that is not a decimal literal is worth 0 |
| `Strings.Lower` | scraper_iphone.py:35 | `lower()` keeps the length and lowers each character |
| `Strings.Strip` | scraper_iphone.py:35 | `strip()` leaves no whitespace at either end and keeps a text without whitespace |
| `Strings.StripIsTrim` | scraper_iphone.py:35 | `strip()` gives a slice of its input with only whitespace before and after it |
| `Strings.StripKeepsCount` | scraper_iphone.py:35 | `strip()` keeps the number of every non-blank character |
| `Strings.ReplaceAllSkipsPrefix` | scraper_iphone.py:35 | `replace` copies unchanged a prefix in which the pattern does not start |
| `Strings.ReplaceAllAtMatch` | scraper_iphone.py:35 | an occurrence of the pattern at the front is replaced and the scan resumes after it; with `ReplaceAllSkipsPrefix` this fixes `replace` (of `ttc` on line 35, of `.html` on line 70) on every input |
| `Strings.ReplaceAllAbsent` | scraper_iphone.py:70 | `replace` of a pattern that does not occur changes nothing |
| `Strings.ReplaceSingleChar` | scraper_iphone.py:35 | a text holding one `c` has that `c` replaced and the rest kept |
| `Strings.ReplaceAllKeepsCount` | scraper_iphone.py:35 | replacing a pattern without `c` by a text without `c` keeps the number of `c`s |
| `Strings.IndexOf` | scraper_iphone.py:101 | where `split(':', 1)` cuts: the position found holds the character and none before it does; none is found only when the character is absent |
| `Strings.NatToString` | scraper_iphone.py:173 | `str(n)` is at least one character, all decimal digits |
| `Strings.NatToStringNoLeadingZero` | scraper_iphone.py:173 | `str(n)` writes no leading zero: only `"0"` starts with `0` |
| `Strings.LowerIdempotent` | scraper_iphone.py:180 | lowering twice is lowering once |
| `Strings.LexLtAfterCommonPrefix` | scraper_iphone.py:180 | after a common prefix the first differing character decides `<` |
| `Strings.NatToStringRoundTrip` | scraper_iphone.py:173 | the decimal rendering of an integer reads back as that integer |
| `Catalog.TagText` | scraper_iphone.py:86-87 | a missing tag gives `"N/A"`, a present one its stripped text |
| `Catalog.ResolveLink` | scraper_iphone.py:89-91 | no link gives `"N/A"`; an `href` starting with `/` is prefixed with the site root; any other is kept; the result always ends with the `href` |
| `Catalog.ExtractReference` | scraper_iphone.py:97-101 | no labelled text gives `"N/A"`; a labelled text gives a reference exactly when it contains `:`, and otherwise `split` raises |
| `Catalog.ReferenceOfLabelledText` | scraper_iphone.py:99-101 | `"…Réf. : <v>"` gives the stripped `v` |
| `Catalog.ExtractProduct` | scraper_iphone.py:84-113 | a container gives a row exactly when its reference text is absent or holds `:`; the row has the six scraped columns, with `price_float` the `clean_price` of `price_raw` and the name, price, link and reference taken from the container |
| `Catalog.ExtractProductOfLabelledContainer` | scraper_iphone.py:99-113 | a container whose reference node holds the `Réf. :` label always gives a row |
| `Catalog.ExtractAll` | scraper_iphone.py:84-113 | a page gives at most one row per product container |
| `Catalog.ExtractAllOne` | scraper_iphone.py:84-113 | a single container gives exactly the row `ExtractProduct` makes of it, or none; with `ExtractAllConcat`, a page's rows are its containers' rows in order |
| `Catalog.ExtractAllScraped` | scraper_iphone.py:84-110 | every row extracted from a page has the six scraped columns |
| `Catalog.ExtractAllConcat` | scraper_iphone.py:84-113 | extraction works container by container: the rows of two lists of containers are the rows of each, in order |
| `Catalog.ExtractProducts` | scraper_iphone.py:76-113 | the container loop yields `ExtractAll` of the containers |
| `Catalog.PageUrlWithoutSuffix` | scraper_iphone.py:70 | a model URL without `.html` is requested unchanged for every page |
| `Catalog.PageUrlOfListing` | scraper_iphone.py:70 | for `n > 1`, `<stem>.html` becomes `<stem>-p<n>.html` |
| `Catalog.MatchAtIsRegex` | scraper_iphone.py:122 | the match position test is the regex `-p(\d+)\.html` with a greedy digit group |
| `Catalog.FirstMatch` | scraper_iphone.py:122 | `re.search` finds the leftmost match |
| `Catalog.PageNumberIsLeftmost` | scraper_iphone.py:122-124 | a link has a page number exactly when the pattern matches in it, and the number is the one captured by the leftmost match |
| `Catalog.PageNumberAfterStem` | scraper_iphone.py:122-124 | a match at `-p<digits>.html` captures the value of those digits |
| `Catalog.PageNumberOfPageUrl` | scraper_iphone.py:122-124 | the page number read from the URL of page `n > 1` is `n` |
| `Catalog.MaxPageNumber` | scraper_iphone.py:118-126 | the page count read from the links is at least 1 |
| `Catalog.MaxPageNumberIsMax` | scraper_iphone.py:118-126 | the page count is at least every page number found, and is 1 or one of them |
| `Catalog.DiscoverTotalPages` | scraper_iphone.py:118-126 | the pagination loop computes `MaxPageNumber` |
| `Catalog.NextTotalOnFirstPage` | scraper_iphone.py:116-126 | only page 1 with pagination links changes the page count, and then to at least 1 and at least every page number the links hold |
| `Catalog.CrawlStart` | scraper_iphone.py:63-81 | page 1 either stops the walk at once, or is visited and the walk goes on from page 2 with the page count it announced |
| `Catalog.CrawlFromStep` | scraper_iphone.py:68-137 | one turn of the loop: a page that stops the walk ends it, any other is recorded and the walk continues with the next page |
| `Catalog.CrawlFromVisits` | scraper_iphone.py:68-137 | from a page past the first, the visits are consecutive pages at their listing URLs, each with its rows |
| `Catalog.CrawlFromBounded` | scraper_iphone.py:68-137 | from a page past the first, no page past the count is visited and every visited page gave a row |
| `Catalog.CrawlFromStops` | scraper_iphone.py:68-137 | from a page past the first, a walk that ends before the count ends at a page that stops it |
| `Catalog.CrawlVisits` | scraper_iphone.py:68-137 | visit `k` is page `k + 1` at its listing URL, with its containers' rows in order, and every page after the first gave a row |
| `Catalog.CrawlBounded` | scraper_iphone.py:68 | the walk visits at most as many pages as page 1 announced |
| `Catalog.CrawlStops` | scraper_iphone.py:73-131 | a walk shorter than announced, or empty, ended at a failed fetch, an empty page 1 or a later page without rows |
| `Catalog.CrawlFromRows` | scraper_iphone.py:131-137 | a page that does not stop the walk contributes its rows, then the next pages' rows |
| `Catalog.CrawlFromContinues` | scraper_iphone.py:131-137 | after a page that does not stop the walk, the loop state stays consistent and the remaining rows are that page's rows then the next pages' |
| `Catalog.ScrapePage` | scraper_iphone.py:68-131 | one turn of the loop stops exactly where the walk stops; otherwise it yields the page's rows and the page count for the next turn |
| `Catalog.ScrapeModelPage` | scraper_iphone.py:58-139 | the caller's list becomes its old contents followed by the rows of every visited page, in order |
| `Records.ProductList.Extend` | scraper_iphone.py:133 | `extend` appends the rows at the end |
| `Export.Ceil` | scraper_iphone.py:164 | `math.ceil`: the least integer not below its argument |
| `Export.ClientPrice` | scraper_iphone.py:157-164 | the client price is never below the computed price and less than one euro above it |
| `Export.CostMonotonic` | scraper_iphone.py:158-164 | with non-negative margin and VAT, a dearer supplier price never gives a lower price before rounding |
| `Export.ClientPriceMonotonic` | scraper_iphone.py:157-164 | with non-negative margin and VAT, a dearer supplier price never gives a cheaper client price |
| `Export.DefaultClientPrice` | scraper_iphone.py:22-26 | with the default coefficients, a supplier price of 10 gives a client price of 44 |
| `Export.DefaultClientPriceFloor` | scraper_iphone.py:22-26 | with the default coefficients, no part with a non-negative supplier price is sold below 24 € |
| `Export.Reprice` | scraper_iphone.py:154-176 | a repriced row loses `price_float`, gains exactly the four price columns, and keeps every other column |
| `Export.RepricedValues` | scraper_iphone.py:158-173 | the four columns hold the supplier price, times the margin, plus the labour, and the formatted client price |
| `Export.RepricedTtcReadsBack` | scraper_iphone.py:164-173 | for every priced row, negative prices included, the client price column reads back through `clean_price` as the client price |
| `Export.TtcReadsBack` | scraper_iphone.py:173 | `FormatTtc(n)`, that is `str(n)` followed by `",00 €"`, reads back through `clean_price` as `n` for every integer `n`, negative ones included |
| `Export.RepriceAll` | scraper_iphone.py:154-176 | every row is repriced, in place and in order |
| `Export.FirstUnpriced` | scraper_iphone.py:154-155 | the loop fails exactly when some row has no numeric `price_float`, and at the first such row |
| `Export.RepriceRows` | scraper_iphone.py:154-176 | the loop reprices every row, or reprices the rows before the first unpriced one and leaves the rest untouched |
| `Export.KeysOf` | scraper_iphone.py:182-183 | a key is collected exactly when some row has it |
| `Export.CollectKeys` | scraper_iphone.py:182-183 | the key loop computes `KeysOf` |
| `Export.RowKeysAreColumns` | scraper_iphone.py:182-198 | every key of every row is a column, so the writer never meets an unknown field |
| `Export.ScrapedRowsHaveFixedColumns` | scraper_iphone.py:186-198 | rows straight from the scraper are all priced and repriced rows have exactly the nine fixed columns |
| `Export.ExportToCsv` | scraper_iphone.py:143-213 | empty input gives no output and no change; an unpriced row raises after repricing the rows before it; otherwise the list is repriced then sorted, and the columns are the fieldnames of its keys |
| `RowOrder.Insert` | scraper_iphone.py:180 | inserting a row adds exactly that row to the list |
| `RowOrder.SortKeyOfNames` | scraper_iphone.py:180 | the key of a row is its model and component names, lower-cased |
| `RowOrder.SortKeyIgnoresCase` | scraper_iphone.py:180 | writing the names in lower case does not change where a row sorts |
| `RowOrder.SortRowsSorted` | scraper_iphone.py:180 | `SortRows` puts the list in key order |
| `RowOrder.SortRowsPermutation` | scraper_iphone.py:180 | `SortRows` is a permutation |
| `RowOrder.SortRowsStable` | scraper_iphone.py:180 | under `SortRows`, rows with equal keys keep their relative order |
| `RowOrder.PairLtTransitive` | scraper_iphone.py:180 | the order on (model, name) keys is transitive |
| `RowOrder.PairLtTotal` | scraper_iphone.py:180 | any two keys are equal or ordered one way |
| `RowOrder.NamesCompareAsText` | scraper_iphone.py:180 | whatever precedes them, `"… 15"` sorts before `"… 7"`: names compare as text, not by number |
| `RowOrder.SortedStrings` | scraper_iphone.py:198 | `sorted()` of a set lists each member once, in increasing order |
| `RowOrder.OtherKeys` | scraper_iphone.py:198 | the extra keys are those not among the fixed columns |
| `RowOrder.FieldnamesOrder` | scraper_iphone.py:186-198 | `Fieldnames`: the columns start with the nine fixed names, the rest are increasing, and they are the keys plus the fixed names |
| `RowOrder.FieldnamesDistinct` | scraper_iphone.py:186-198 | `Fieldnames` lists no column twice |
| `Strings.LexLtTransitive` | scraper_iphone.py:198 | `<` on strings is transitive |
| `Strings.LexLtTotal` | scraper_iphone.py:198 | any two strings are equal or ordered one way |

## Left out

- `get_soup` is not modelled: the HTTP request, headers, timeout, retries
  with back-off and HTML parsing. Fetching is the parameter `fetch`, and a
  page is given as its selected containers and pagination `href`s.
  Because `fetch` is a function, the model takes fetching to be
  deterministic: a URL requested twice gives the same page. A real server
  could answer differently, for instance when a model URL without `.html`
  makes every page request the same URL (`Catalog.PageUrlWithoutSuffix`).
- The Streamlit `st_container` messages, `print` and the random sleeps
  between pages are left out. They are output and timing only.
  `products_count` is kept as a loop variable.
- Writing the CSV text (`csv.DictWriter`, the `;` delimiter, the
  `StringIO` buffer) is not modelled. `ExportToCsv` ends with the rows and
  column list the writer receives. The `except` path that returns `None`
  is not modelled either: `RowKeysAreColumns` shows that no row has a key
  outside the columns.
- `Export.Reprice`: the three HT columns keep the exact amount
  (`Euros(x)`). The model does not spell out `round(x, 2)` formatted with
  two decimals and a comma.
- `Export.ExportToCsv`: amounts are exact reals. IEEE-754 rounding of
  `price * margin + labour` and its effect on `math.ceil` are not
  modelled.
- `Prices.CleanPrice`: `float()` is modelled on plain decimal literals with
  an optional sign. It does not accept exponents, `inf`, `nan`,
  underscores or non-ASCII digits.
- `Catalog.MatchAt`: `\d` accepts only the ASCII digits 0-9. Python 3's
  `re` and `int()` accept any Unicode decimal digit, so a link such as
  `-p٣.html` gives page 3 in the source and no page number here.
- `Strings.Lower`: `lower()` is modelled on ASCII and Latin-1 capitals.
  Other scripts are left unchanged.
- `RowOrder.KeyText`: `str()` of a non-text model or name cell is modelled
  as `""`. Scraped rows always hold text there.
- Rows are values. Aliasing between the caller's dicts and other
  references to them is not modelled.
- The exceptions an HTML-parser object could raise inside the `try` of the
  container loop are not modelled. The only one modelled is the
  `IndexError` of a reference text without `:`. That branch cannot be
  reached in the source: a text node found by the pattern `Réf\. :` always
  holds a `:`, as `Catalog.ExtractProductOfLabelledContainer` proves.
- `App.py` (the Streamlit user interface that calls these functions) is
  not part of this model.
