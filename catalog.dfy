/** `scrape_model_page`: walk the paginated component listing of one phone
    model and append one row per product container to the caller's list.

    Fetching and HTML parsing are outside the model: a page is what the
    parser would have extracted from it, and the network is a function from
    URL to an optional page (`None` when every retry failed). */
module Catalog {
  import opened Wrappers
  import opened Strings
  import opened Prices
  import opened Records

  const BaseUrl: string := "http://www.visiodirect-mobile.com"

  /** One `div.cadre_prod`, as the parser sees it:
      - `name`: the text of its first `h3`, else of its first `h4`;
      - `href`: the `href` of its first `<a>` that has one;
      - `price`: the text of its first `.price_item`, else of its first `.prix`;
      - `refText`: its first text node matching `Réf\. :`. */
  datatype Container = Container(
    name: Option<string>,
    href: Option<string>,
    price: Option<string>,
    refText: Option<string>)

  /** A fetched listing page: its product containers, in document order,
      and the `href` of every `div.pagination a` (`""` when it has none). */
  datatype Page = Page(containers: seq<Container>, paginationHrefs: seq<string>)

  /** `get_soup`: `None` when the page could not be fetched. */
  type Fetch = string -> Option<Page>

  // ---------------------------------------------------------------------
  // One container

  /** The stripped text of a tag, or `"N/A"` when there is none. */
  function TagText(tag: Option<string>): (r: string)
    ensures tag.None? ==> r == NotAvailable
    ensures tag.Some? ==> r == Strip(tag.value)
  {
    match tag
    case None => NotAvailable
    case Some(t) => Strip(t)
  }

  predicate EndsWith(s: string, suffix: string) {
    |suffix| <= |s| && s[|s| - |suffix|..] == suffix
  }

  /** A site-relative `href` is made absolute against the site root; any
      other `href` is kept as it is. */
  function ResolveLink(href: Option<string>): (r: string)
    ensures href.None? ==> r == NotAvailable
    ensures href.Some? ==> EndsWith(r, href.value)
    ensures href.Some? && StartsWith(href.value, "/") ==> r == BaseUrl + href.value
    ensures href.Some? && !StartsWith(href.value, "/") ==> r == href.value
  {
    match href
    case None => NotAvailable
    case Some(h) => if StartsWith(h, "/") then BaseUrl + h else h
  }

  /** The reference: what follows the first `:` of the matched text node,
      stripped; `"N/A"` without such a node. `None` is the `IndexError` of
      `split(':', 1)[1]` on a text without `:`, which drops the product. */
  function ExtractReference(refText: Option<string>): (r: Option<string>)
    ensures refText.None? ==> r == Some(NotAvailable)
    ensures refText.Some? ==> (r.Some? <==> ':' in refText.value)
  {
    match refText
    case None => Some(NotAvailable)
    case Some(t) =>
      match IndexOf(t, ':')
      case None => None
      case Some(i) => Some(Strip(t[i + 1..]))
  }

  /** The text after the first `:`, when it ends the leading part. */
  lemma ReferenceAfterLabel(lead: string, value: string)
    requires ':' !in lead
    ensures ExtractReference(Some(lead + ":" + value)) == Some(Strip(value))
  {
    var t := lead + ":" + value;
    assert t[|lead|] == ':';
    assert IndexOf(t, ':') == Some(|lead|);
    assert t[|lead| + 1..] == value;
  }

  /** A text node the `Réf\. :` search can return. */
  predicate HasReferenceLabel(t: string) {
    exists i :: 0 <= i < |t| && OccursAt(t, "Réf. :", i)
  }

  /** `"Réf. : <value>"` gives the stripped value. */
  lemma ReferenceOfLabelledText(before: string, value: string)
    requires ':' !in before
    ensures ExtractReference(Some(before + "Réf. :" + value)) == Some(Strip(value))
  {
    var lead := before + "Réf. ";
    assert ':' !in lead by {
      assert forall k :: |before| <= k < |lead| ==> lead[k] == "Réf. "[k - |before|];
    }
    assert before + "Réf. :" + value == lead + ":" + value;
    ReferenceAfterLabel(lead, value);
  }

  /** The six columns of a freshly scraped row: the `price_float` column is
      `clean_price` of the `price_raw` column. */
  predicate ScrapedRow(row: Row, model: string) {
    && row.Keys == {MarqueModele, NomComposant, Reference, PriceFloat, PriceRaw, Link}
    && row[MarqueModele] == Text(model)
    && row[NomComposant].Text? && row[Reference].Text? && row[Link].Text?
    && row[PriceRaw].Text?
    && row[PriceFloat] == Number(CleanPrice(row[PriceRaw].s))
  }

  /** The row of one container, or `None` when the `try` block raises. */
  function ExtractProduct(model: string, c: Container): (r: Option<Row>)
    ensures r.Some? <==> c.refText.None? || ':' in c.refText.value
    ensures r.Some? ==> ScrapedRow(r.value, model)
    ensures r.Some? ==>
              && r.value[NomComposant] == Text(TagText(c.name))
              && r.value[PriceRaw] == Text(TagText(c.price))
              && r.value[Link] == Text(ResolveLink(c.href))
              && Some(r.value[Reference].s) == ExtractReference(c.refText)
  {
    var name := TagText(c.name);
    var link := ResolveLink(c.href);
    var priceRaw := TagText(c.price);
    match ExtractReference(c.refText)
    case None => None
    case Some(reference) => Some(NewRow(model, name, reference, priceRaw, link))
  }

  /** The dict literal of `product_data`. */
  function NewRow(model: string, name: string, reference: string, priceRaw: string, link: string): (row: Row)
    ensures && NomComposant in row && Reference in row && PriceRaw in row && Link in row
            && row[NomComposant] == Text(name) && row[Reference] == Text(reference)
            && row[PriceRaw] == Text(priceRaw) && row[Link] == Text(link)
    ensures ScrapedRow(row, model)
  {
    map[
      MarqueModele := Text(model),
      NomComposant := Text(name),
      Reference := Text(reference),
      PriceFloat := Number(CleanPrice(priceRaw)),
      PriceRaw := Text(priceRaw),
      Link := Text(link)]
  }

  /** A container whose reference node really carries the label always
      yields a row: the `except` branch is then never taken. */
  lemma ExtractProductOfLabelledContainer(model: string, c: Container)
    requires c.refText.Some? ==> HasReferenceLabel(c.refText.value)
    ensures ExtractProduct(model, c).Some?
  {
    if c.refText.Some? {
      var t := c.refText.value;
      var i :| 0 <= i < |t| && OccursAt(t, "Réf. :", i);
      assert |"Réf. :"| == 6 && "Réf. :"[5] == ':';
      assert t[i..i + 6][5] == t[i + 5];
    }
  }

  /** `products_on_page`: the rows of the containers, in container order. */
  function ExtractAll(model: string, cs: seq<Container>): (rows: seq<Row>)
    ensures |rows| <= |cs|
  {
    if cs == [] then []
    else
      var rest := ExtractAll(model, cs[..|cs| - 1]);
      match ExtractProduct(model, cs[|cs| - 1])
      case None => rest
      case Some(row) => rest + [row]
  }

  /** Every row of a page has the six scraped columns. */
  lemma {:induction false} ExtractAllScraped(model: string, cs: seq<Container>)
    ensures forall k :: 0 <= k < |ExtractAll(model, cs)| ==> ScrapedRow(ExtractAll(model, cs)[k], model)
  {
    if cs != [] {
      ExtractAllScraped(model, cs[..|cs| - 1]);
    }
  }

  /** A single container gives its row, or none when `ExtractProduct`
      drops it. With `ExtractAllConcat` this fixes the rows of every list of
      containers. */
  lemma ExtractAllOne(model: string, c: Container)
    ensures ExtractAll(model, [c]) == (match ExtractProduct(model, c) case None => [] case Some(r) => [r])
  {
    assert [c][..0] == [];
  }

  /** Extraction is container by container. */
  lemma {:induction false} ExtractAllConcat(model: string, a: seq<Container>, b: seq<Container>)
    ensures ExtractAll(model, a + b) == ExtractAll(model, a) + ExtractAll(model, b)
    decreases |b|
  {
    if b == [] {
      assert a + b == a;
    } else {
      var b' := b[..|b| - 1];
      assert (a + b)[..|a + b| - 1] == a + b';
      ExtractAllConcat(model, a, b');
    }
  }

  // ---------------------------------------------------------------------
  // Page URLs

  /** The URL of listing page `n`: page 1 is the model URL itself, any
      later page rewrites every `".html"` to `"-p<n>.html"`. */
  function PageUrl(modelUrl: string, n: nat): string {
    if n > 1 then ReplaceAll(modelUrl, ".html", "-p" + NatToString(n) + ".html") else modelUrl
  }

  /** A model URL without `".html"` is its own page `n` for every `n`. */
  lemma PageUrlWithoutSuffix(modelUrl: string, n: nat)
    requires forall i :: 0 <= i < |modelUrl| ==> !OccursAt(modelUrl, ".html", i)
    ensures PageUrl(modelUrl, n) == modelUrl
  {
    if n > 1 {
      ReplaceAllAbsent(modelUrl, ".html", "-p" + NatToString(n) + ".html");
    }
  }

  /** For a model URL ending in its only `".html"`, the suffix is rewritten. */
  lemma PageUrlOfListing(stem: string, n: nat)
    requires n > 1
    requires forall i :: 0 <= i < |stem| ==> !OccursAt(stem + ".html", ".html", i)
    ensures PageUrl(stem + ".html", n) == stem + "-p" + NatToString(n) + ".html"
  {
    var rep := "-p" + NatToString(n) + ".html";
    ReplaceAllSkipsPrefix(stem, ".html", ".html", rep);
    assert ReplaceAll(".html", ".html", rep) == rep + ReplaceAll("", ".html", rep);
  }

  // ---------------------------------------------------------------------
  // The page number in a pagination link

  /** `re.search(r'-p(\d+)\.html', s)` can match at `i`: `"-p"`, the whole
      run of digits after it (at least one), then `".html"`. Backtracking
      cannot shorten the run, since `".html"` does not start with a digit. */
  predicate MatchAt(s: string, i: int) {
    && OccursAt(s, "-p", i)
    && var k := LeadingDigits(s[i + 2..]);
    && k >= 1
    && OccursAt(s, ".html", i + 2 + k)
  }

  /** The regular expression read literally: `"-p"`, `k >= 1` digits, `".html"`. */
  predicate RegexMatch(s: string, i: int, k: int) {
    && OccursAt(s, "-p", i)
    && k >= 1
    && i + 2 + k <= |s|
    && AllDigits(s[i + 2..i + 2 + k])
    && OccursAt(s, ".html", i + 2 + k)
  }

  /** `MatchAt` is the regular expression, and the digit run it captures is
      the only one that can match. */
  lemma MatchAtIsRegex(s: string, i: int)
    ensures MatchAt(s, i) ==> RegexMatch(s, i, LeadingDigits(s[i + 2..]))
    ensures forall k :: RegexMatch(s, i, k) ==> MatchAt(s, i) && k == LeadingDigits(s[i + 2..])
  {
    if MatchAt(s, i) {
      var t := s[i + 2..];
      var k := LeadingDigits(t);
      assert s[i + 2..i + 2 + k] == t[..k];
    }
    forall k | RegexMatch(s, i, k)
      ensures MatchAt(s, i) && k == LeadingDigits(s[i + 2..])
    {
      var t := s[i + 2..];
      assert t == t[..k] + t[k..];
      assert t[..k] == s[i + 2..i + 2 + k];
      assert t[k] == '.';
      LeadingDigitsOfDigitsThen(t[..k], t[k..]);
    }
  }

  /** The number the match at `i` captures (`int(match.group(1))`). */
  function PageNumberAt(s: string, i: int): nat
    requires MatchAt(s, i)
  {
    var t := s[i + 2..];
    DigitsValue(t[..LeadingDigits(t)])
  }

  /** The leftmost match at or after `from`. */
  function FirstMatch(s: string, from: nat): (r: Option<nat>)
    ensures r.Some? ==> from <= r.value && MatchAt(s, r.value)
    ensures r.Some? ==> forall j :: from <= j < r.value ==> !MatchAt(s, j)
    ensures r.None? ==> forall j :: from <= j ==> !MatchAt(s, j)
    decreases |s| - from
  {
    if from >= |s| then None
    else if MatchAt(s, from) then Some(from)
    else FirstMatch(s, from + 1)
  }

  /** The page number of a pagination link, if its `href` has one. */
  function PageNumber(href: string): Option<nat> {
    match FirstMatch(href, 0)
    case None => None
    case Some(i) => Some(PageNumberAt(href, i))
  }

  /** A link has a page number exactly when the pattern matches somewhere,
      and it is the number captured by the leftmost match. */
  lemma PageNumberIsLeftmost(href: string)
    ensures PageNumber(href).None? <==> forall j :: 0 <= j ==> !MatchAt(href, j)
    ensures PageNumber(href).Some? ==>
              exists i :: 0 <= i && MatchAt(href, i) && PageNumber(href).value == PageNumberAt(href, i)
                          && forall j :: 0 <= j < i ==> !MatchAt(href, j)
  {
    var m := FirstMatch(href, 0);
    if m.Some? {
      assert MatchAt(href, m.value) && PageNumber(href).value == PageNumberAt(href, m.value);
    }
  }

  /** The number in a page URL built from a listing URL is read back. */
  lemma PageNumberOfPageUrl(stem: string, n: nat)
    requires n > 1
    requires forall i :: 0 <= i < |stem| ==> !OccursAt(stem + ".html", ".html", i)
    ensures PageNumber(PageUrl(stem + ".html", n)) == Some(n)
  {
    var ds := NatToString(n);
    var s := stem + "-p" + ds + ".html";
    var m := |stem|;
    PageUrlOfListing(stem, n);
    MatchAfterStem(stem, ds);
    PageNumberAfterStem(stem, ds);
    forall j | 0 <= j < m
      ensures !MatchAt(s, j)
    {
      NoEarlierMatch(stem, ds, j);
    }
    FirstMatchFrom(s, 0, m);
    NatToStringRoundTrip(n);
  }

  /** The match right after the stem captures the digits written there. */
  lemma MatchAfterStem(stem: string, ds: string)
    requires |ds| > 0 && AllDigits(ds)
    ensures MatchAt(stem + "-p" + ds + ".html", |stem|)
  {
    DashPAfterStem(stem, ds);
    DigitsAfterStem(stem, ds);
    SuffixAfterDigits(stem, ds);
  }

  /** ... and it captures the digits written there. */
  lemma PageNumberAfterStem(stem: string, ds: string)
    requires |ds| > 0 && AllDigits(ds)
    requires MatchAt(stem + "-p" + ds + ".html", |stem|)
    ensures PageNumberAt(stem + "-p" + ds + ".html", |stem|) == DigitsValue(ds)
  {
    DigitsAfterStem(stem, ds);
    CapturedDigits(stem, ds);
  }

  lemma DashPAfterStem(stem: string, ds: string)
    ensures OccursAt(stem + "-p" + ds + ".html", "-p", |stem|)
  {
    SlicesOfConcat(stem, "-p", ds, ".html");
  }

  lemma DigitsAfterStem(stem: string, ds: string)
    requires AllDigits(ds)
    ensures var s := stem + "-p" + ds + ".html";
            LeadingDigits(s[|stem| + 2..]) == |ds|
  {
    SlicesOfConcat(stem, "-p", ds, ".html");
    LeadingDigitsOfDigitsThen(ds, ".html");
  }

  lemma SuffixAfterDigits(stem: string, ds: string)
    ensures OccursAt(stem + "-p" + ds + ".html", ".html", |stem| + 2 + |ds|)
  {
    SlicesOfConcat(stem, "-p", ds, ".html");
  }

  lemma CapturedDigits(stem: string, ds: string)
    ensures var s := stem + "-p" + ds + ".html";
            s[|stem| + 2..][..|ds|] == ds
  {
    SlicesOfConcat(stem, "-p", ds, ".html");
  }

  /** `FirstMatch` finds a match when no earlier one exists. */
  lemma {:induction false} FirstMatchFrom(s: string, from: nat, m: nat)
    requires from <= m && MatchAt(s, m)
    requires forall j :: from <= j < m ==> !MatchAt(s, j)
    ensures FirstMatch(s, from) == Some(m)
    decreases m - from
  {
    if from < m {
      FirstMatchFrom(s, from + 1, m);
    }
  }

  /** No match starts inside the stem of `stem + "-p" + ds + ".html"`. */
  lemma NoEarlierMatch(stem: string, ds: string, j: nat)
    requires AllDigits(ds)
    requires forall i :: 0 <= i < |stem| ==> !OccursAt(stem + ".html", ".html", i)
    requires j < |stem|
    ensures !MatchAt(stem + "-p" + ds + ".html", j)
  {
    MatchInStem(stem, ds, j);
  }

  /** A match starting inside the stem would need a `".html"` inside the
      stem: the run of digits stops at the `-p` after `stem`, and `".html"`
      cannot run over that `-`. */
  lemma MatchInStem(stem: string, ds: string, j: nat)
    requires AllDigits(ds) && j < |stem|
    ensures var s := stem + "-p" + ds + ".html";
            MatchAt(s, j) ==>
              var e := j + 2 + LeadingDigits(s[j + 2..]);
              e < |stem| && OccursAt(stem + ".html", ".html", e)
  {
    var s := stem + "-p" + ds + ".html";
    SlicesOfConcat(stem, "-p", ds, ".html");
    MatchBeforeDash(s, |stem|, j);
    var e := j + 2 + LeadingDigits(s[j + 2..]);
    if MatchAt(s, j) {
      OccursInStem(stem, s, e);
    }
  }

  /** A match that starts before a `-p` ends before it. */
  lemma MatchBeforeDash(s: string, m: nat, j: nat)
    requires j < m && m + 1 < |s| && s[m] == '-' && s[m + 1] == 'p'
    ensures MatchAt(s, j) ==> j + 2 + LeadingDigits(s[j + 2..]) + 5 <= m
  {
    var t := s[j + 2..];
    var e := j + 2 + LeadingDigits(t);
    if j + 2 <= m {
      assert t[m - j - 2] == s[m];
      LeadingDigitsBound(t, m - j - 2);
      SuffixStopsAtDash(s, e, m);
    } else {
      assert t[0] == s[m + 1];
      LeadingDigitsBound(t, 0);
    }
  }

  /** An occurrence of `".html"` inside the stem is one in `stem + ".html"`. */
  lemma OccursInStem(stem: string, s: string, e: nat)
    requires |stem| <= |s| && s[..|stem|] == stem && e + 5 <= |stem|
    requires OccursAt(s, ".html", e)
    ensures OccursAt(stem + ".html", ".html", e)
  {
    assert (stem + ".html")[..|stem|] == stem;
    SlicesAgree(s, stem + ".html", |stem|, e, 5);
  }

  /** `".html"` contains no `-`, so an occurrence before a `-` ends before it. */
  lemma SuffixStopsAtDash(s: string, e: nat, m: nat)
    requires e <= m < |s| && s[m] == '-'
    ensures OccursAt(s, ".html", e) ==> e + 5 <= m
  {
    if e + 5 > m && e + 5 <= |s| {
      assert s[e..e + 5][m - e] == s[m];
    }
  }

  // ---------------------------------------------------------------------
  // Number of pages

  /** The largest page number among the pagination links, at least 1. */
  function MaxPageNumber(hrefs: seq<string>): (n: nat)
    ensures n >= 1
  {
    if hrefs == [] then 1
    else
      var before := MaxPageNumber(hrefs[..|hrefs| - 1]);
      var last := PageNumber(hrefs[|hrefs| - 1]);
      if last.Some? && last.value > before then last.value else before
  }

  /** `MaxPageNumber` bounds every page number found and is 1 or one of them. */
  lemma {:induction false} MaxPageNumberIsMax(hrefs: seq<string>)
    ensures var n := MaxPageNumber(hrefs);
            && (forall k :: 0 <= k < |hrefs| && PageNumber(hrefs[k]).Some? ==> PageNumber(hrefs[k]).value <= n)
            && (n == 1 || exists k :: 0 <= k < |hrefs| && PageNumber(hrefs[k]) == Some(n))
  {
    if hrefs != [] {
      var init := hrefs[..|hrefs| - 1];
      MaxPageNumberIsMax(init);
      assert forall k :: 0 <= k < |init| ==> init[k] == hrefs[k];
      var n := MaxPageNumber(hrefs);
      if n != 1 && n != MaxPageNumber(init) {
        assert PageNumber(hrefs[|hrefs| - 1]) == Some(n);
      }
    }
  }

  /** The `max_page` loop over the pagination links. */
  method DiscoverTotalPages(hrefs: seq<string>) returns (maxPage: nat)
    ensures maxPage == MaxPageNumber(hrefs)
  {
    maxPage := 1;
    for k := 0 to |hrefs|
      invariant maxPage == MaxPageNumber(hrefs[..k])
    {
      assert hrefs[..k + 1][..k] == hrefs[..k];
      var pageNum := PageNumber(hrefs[k]);
      if pageNum.Some? {
        if pageNum.value > maxPage {
          maxPage := pageNum.value;
        }
      }
    }
    assert hrefs[..|hrefs|] == hrefs;
  }

  /** `total_pages` after page `current`: only page 1 sets it, and only when
      it has pagination links. */
  function NextTotal(current: nat, total: nat, page: Page): nat {
    if current == 1 && |page.paginationHrefs| > 0 then MaxPageNumber(page.paginationHrefs) else total
  }

  /** Only page 1 sets the number of pages; when it has pagination links
      the number is at least every page number they hold. */
  lemma NextTotalOnFirstPage(current: nat, total: nat, page: Page)
    ensures current != 1 || |page.paginationHrefs| == 0 ==> NextTotal(current, total, page) == total
    ensures var hrefs := page.paginationHrefs;
            current == 1 && |hrefs| > 0 ==>
              && NextTotal(current, total, page) >= 1
              && forall k :: 0 <= k < |hrefs| && PageNumber(hrefs[k]).Some? ==>
                   PageNumber(hrefs[k]).value <= NextTotal(current, total, page)
  {
    MaxPageNumberIsMax(page.paginationHrefs);
  }

  // ---------------------------------------------------------------------
  // The walk over the pages

  /** A page that contributed rows: its number, URL and rows. */
  datatype Visit = Visit(number: nat, url: string, rows: seq<Row>)

  /** The loop's state is consistent: `total_pages` is still 1 on page 1,
      and a later page is at most one past the last. */
  predicate LoopState(current: nat, total: nat) {
    current >= 1 && (current == 1 ==> total == 1) && current <= total + 1
  }

  /** The pages the loop visits from page `current` on, given `total`. */
  function CrawlFrom(model: string, modelUrl: string, fetch: Fetch, current: nat, total: nat): seq<Visit>
    requires LoopState(current, total)
    decreases if current == 1 then 1 else 0, total + 1 - current
  {
    if current > total then []
    else
      var url := PageUrl(modelUrl, current);
      match fetch(url)
      case None => []
      case Some(page) =>
        if |page.containers| == 0 && current == 1 then []
        else
          var rows := ExtractAll(model, page.containers);
          var total' := NextTotal(current, total, page);
          if |rows| == 0 && current > 1 then []
          else [Visit(current, url, rows)] + CrawlFrom(model, modelUrl, fetch, current + 1, total')
  }

  /** The pages the scraper visits for a model. */
  function Crawl(model: string, modelUrl: string, fetch: Fetch): seq<Visit> {
    CrawlFrom(model, modelUrl, fetch, 1, 1)
  }

  /** Every row appended, page after page. */
  function Rows(visits: seq<Visit>): (rows: seq<Row>)
    ensures visits == [] ==> rows == []
  {
    if visits == [] then [] else visits[0].rows + Rows(visits[1..])
  }

  /** A visit is to the listing page its number names, and its rows are
      the fetched page's containers, extracted in order. */
  predicate VisitOf(model: string, modelUrl: string, fetch: Fetch, v: Visit, n: nat) {
    && v.number == n
    && v.url == PageUrl(modelUrl, n)
    && fetch(v.url).Some?
    && v.rows == ExtractAll(model, fetch(v.url).value.containers)
  }

  /** Page `n` ends the walk: it could not be fetched, or (page 1) it has
      no container, or (later page) none of its containers gave a row. */
  predicate Stops(model: string, modelUrl: string, fetch: Fetch, n: nat) {
    var page := fetch(PageUrl(modelUrl, n));
    || page.None?
    || (n == 1 && |page.value.containers| == 0)
    || (n > 1 && |ExtractAll(model, page.value.containers)| == 0)
  }

  /** One turn of the loop: the walk ends at a page that stops it, and
      otherwise records that page and goes on with the next. */
  lemma CrawlFromStep(model: string, modelUrl: string, fetch: Fetch, current: nat, total: nat)
    requires LoopState(current, total) && current <= total
    ensures Stops(model, modelUrl, fetch, current) ==> CrawlFrom(model, modelUrl, fetch, current, total) == []
    ensures !Stops(model, modelUrl, fetch, current) ==>
              var url := PageUrl(modelUrl, current);
              var page := fetch(url).value;
              CrawlFrom(model, modelUrl, fetch, current, total)
              == [Visit(current, url, ExtractAll(model, page.containers))]
                 + CrawlFrom(model, modelUrl, fetch, current + 1, NextTotal(current, total, page))
  {
  }

  /** The visits `vs` are to pages `current`, `current + 1`, …, in order. */
  predicate VisitsFrom(model: string, modelUrl: string, fetch: Fetch, vs: seq<Visit>, current: nat) {
    forall k :: 0 <= k < |vs| ==> VisitOf(model, modelUrl, fetch, vs[k], current + k)
  }

  lemma VisitsFromCons(model: string, modelUrl: string, fetch: Fetch, vs: seq<Visit>, current: nat)
    requires |vs| > 0 && VisitOf(model, modelUrl, fetch, vs[0], current)
    requires VisitsFrom(model, modelUrl, fetch, vs[1..], current + 1)
    ensures VisitsFrom(model, modelUrl, fetch, vs, current)
  {
    forall k | 0 < k < |vs|
      ensures VisitOf(model, modelUrl, fetch, vs[k], current + k)
    {
      assert vs[k] == vs[1..][k - 1];
    }
  }

  /** Past page 1, a page that does not stop the walk is its first visit. */
  lemma CrawlFromHead(model: string, modelUrl: string, fetch: Fetch, current: nat, total: nat)
    requires LoopState(current, total) && 1 < current <= total
    requires !Stops(model, modelUrl, fetch, current)
    ensures var vs := CrawlFrom(model, modelUrl, fetch, current, total);
            && |vs| > 0
            && VisitOf(model, modelUrl, fetch, vs[0], current)
            && vs[1..] == CrawlFrom(model, modelUrl, fetch, current + 1, total)
  {
    CrawlFromStep(model, modelUrl, fetch, current, total);
  }

  /** From `current` on, the pages visited are `current`, `current + 1`, …,
      each the listing page its number names, with its rows. */
  lemma {:induction false} CrawlFromVisits(model: string, modelUrl: string, fetch: Fetch, current: nat, total: nat)
    requires LoopState(current, total) && current > 1
    ensures VisitsFrom(model, modelUrl, fetch, CrawlFrom(model, modelUrl, fetch, current, total), current)
    decreases total + 1 - current
  {
    if current <= total {
      if Stops(model, modelUrl, fetch, current) {
        CrawlFromStep(model, modelUrl, fetch, current, total);
      } else {
        CrawlFromHead(model, modelUrl, fetch, current, total);
        CrawlFromVisits(model, modelUrl, fetch, current + 1, total);
        VisitsFromCons(model, modelUrl, fetch, CrawlFrom(model, modelUrl, fetch, current, total), current);
      }
    }
  }

  /** From `current` on, no page past `total` is visited and every page
      visited gave rows. */
  lemma {:induction false} CrawlFromBounded(model: string, modelUrl: string, fetch: Fetch, current: nat, total: nat)
    requires LoopState(current, total) && current > 1
    ensures var vs := CrawlFrom(model, modelUrl, fetch, current, total);
            current + |vs| <= total + 1 && forall k :: 0 <= k < |vs| ==> |vs[k].rows| > 0
    decreases total + 1 - current
  {
    var vs := CrawlFrom(model, modelUrl, fetch, current, total);
    if current <= total {
      CrawlFromStep(model, modelUrl, fetch, current, total);
      if !Stops(model, modelUrl, fetch, current) {
        var url := PageUrl(modelUrl, current);
        var page := fetch(url).value;
        CrawlFromBounded(model, modelUrl, fetch, current + 1, total);
        var rest := CrawlFrom(model, modelUrl, fetch, current + 1, total);
        assert vs == [Visit(current, url, ExtractAll(model, page.containers))] + rest;
        forall k | 0 <= k < |vs|
          ensures |vs[k].rows| > 0
        {
          if k > 0 {
            assert vs[k] == rest[k - 1];
          }
        }
      }
    }
  }

  /** Past page 1, a page that does not stop the walk adds one visit. */
  lemma CrawlFromNext(model: string, modelUrl: string, fetch: Fetch, current: nat, total: nat)
    requires LoopState(current, total) && 1 < current <= total
    requires !Stops(model, modelUrl, fetch, current)
    ensures |CrawlFrom(model, modelUrl, fetch, current, total)|
         == 1 + |CrawlFrom(model, modelUrl, fetch, current + 1, total)|
  {
    CrawlFromStep(model, modelUrl, fetch, current, total);
  }

  /** The walk from `current` ends before `total` only at a page that
      stops it. */
  predicate EndsAtStop(model: string, modelUrl: string, fetch: Fetch, current: nat, total: nat)
    requires LoopState(current, total)
  {
    var vs := CrawlFrom(model, modelUrl, fetch, current, total);
    current + |vs| <= total ==> Stops(model, modelUrl, fetch, current + |vs|)
  }

  /** Where the walk from `current + 1` stops, so does the walk from
      `current`, one visit longer. */
  lemma StopsAfterNext(model: string, modelUrl: string, fetch: Fetch, current: nat, total: nat)
    requires LoopState(current, total) && 1 < current <= total
    requires |CrawlFrom(model, modelUrl, fetch, current, total)|
          == 1 + |CrawlFrom(model, modelUrl, fetch, current + 1, total)|
    requires EndsAtStop(model, modelUrl, fetch, current + 1, total)
    ensures EndsAtStop(model, modelUrl, fetch, current, total)
  {
  }

  /** A walk from `current` that ends before `total` ends at a page that
      stops it. */
  lemma {:induction false} CrawlFromStops(model: string, modelUrl: string, fetch: Fetch, current: nat, total: nat)
    requires LoopState(current, total) && current > 1
    ensures EndsAtStop(model, modelUrl, fetch, current, total)
    decreases total + 1 - current
  {
    if current <= total {
      if Stops(model, modelUrl, fetch, current) {
        CrawlFromStep(model, modelUrl, fetch, current, total);
      } else {
        CrawlFromNext(model, modelUrl, fetch, current, total);
        CrawlFromStops(model, modelUrl, fetch, current + 1, total);
        StopsAfterNext(model, modelUrl, fetch, current, total);
      }
    }
  }

  /** The number of pages announced by page 1, when it is walked. */
  function AnnouncedPages(modelUrl: string, fetch: Fetch): nat {
    match fetch(modelUrl)
    case None => 1
    case Some(page) => NextTotal(1, 1, page)
  }

  /** Page 1 either stops the walk at once, or is visited and the walk
      goes on from page 2 with the announced number of pages. */
  lemma CrawlStart(model: string, modelUrl: string, fetch: Fetch)
    ensures Stops(model, modelUrl, fetch, 1) ==> Crawl(model, modelUrl, fetch) == []
    ensures !Stops(model, modelUrl, fetch, 1) ==>
              Crawl(model, modelUrl, fetch)
              == [Visit(1, modelUrl, ExtractAll(model, fetch(modelUrl).value.containers))]
                 + CrawlFrom(model, modelUrl, fetch, 2, AnnouncedPages(modelUrl, fetch))
  {
    CrawlFromStep(model, modelUrl, fetch, 1, 1);
  }

  /** The scraper visits pages 1, 2, … in order, each the listing page its
      number names with its rows extracted in container order, and every
      page after the first gave at least one row. */
  lemma CrawlVisits(model: string, modelUrl: string, fetch: Fetch)
    ensures var vs := Crawl(model, modelUrl, fetch);
            forall k :: 0 <= k < |vs| ==> VisitOf(model, modelUrl, fetch, vs[k], k + 1) && (k > 0 ==> |vs[k].rows| > 0)
  {
    var vs := Crawl(model, modelUrl, fetch);
    CrawlStart(model, modelUrl, fetch);
    if vs != [] {
      var total := AnnouncedPages(modelUrl, fetch);
      CrawlFromVisits(model, modelUrl, fetch, 2, total);
      CrawlFromBounded(model, modelUrl, fetch, 2, total);
      var rest := CrawlFrom(model, modelUrl, fetch, 2, total);
      forall k | 0 <= k < |vs|
        ensures VisitOf(model, modelUrl, fetch, vs[k], k + 1) && (k > 0 ==> |vs[k].rows| > 0)
      {
        if k > 0 {
          assert vs[k] == rest[k - 1];
        }
      }
    }
  }

  /** The scraper never goes past the number of pages announced by page 1. */
  lemma CrawlBounded(model: string, modelUrl: string, fetch: Fetch)
    ensures |Crawl(model, modelUrl, fetch)| <= AnnouncedPages(modelUrl, fetch)
  {
    CrawlStart(model, modelUrl, fetch);
    if !Stops(model, modelUrl, fetch, 1) {
      CrawlFromBounded(model, modelUrl, fetch, 2, AnnouncedPages(modelUrl, fetch));
    }
  }

  /** A walk that visits fewer pages than announced, or none, ends at a page
      that stops it: a failed fetch, an empty page 1, or a later page
      without rows. */
  lemma CrawlStops(model: string, modelUrl: string, fetch: Fetch)
    ensures var n := |Crawl(model, modelUrl, fetch)|;
            n < AnnouncedPages(modelUrl, fetch) || n == 0 ==> Stops(model, modelUrl, fetch, n + 1)
  {
    CrawlStart(model, modelUrl, fetch);
    if !Stops(model, modelUrl, fetch, 1) {
      CrawlFromStops(model, modelUrl, fetch, 2, AnnouncedPages(modelUrl, fetch));
    }
  }

  /** A page that stops the walk contributes nothing more. */
  lemma CrawlFromStopped(model: string, modelUrl: string, fetch: Fetch, current: nat, total: nat)
    requires LoopState(current, total) && current <= total
    requires Stops(model, modelUrl, fetch, current)
    ensures Rows(CrawlFrom(model, modelUrl, fetch, current, total)) == []
  {
    CrawlFromStep(model, modelUrl, fetch, current, total);
  }

  /** A page that does not stop the walk contributes its rows, then the
      walk goes on from the next page. */
  lemma CrawlFromRows(model: string, modelUrl: string, fetch: Fetch, current: nat, total: nat)
    requires LoopState(current, total) && current <= total
    requires !Stops(model, modelUrl, fetch, current)
    ensures var page := fetch(PageUrl(modelUrl, current)).value;
            Rows(CrawlFrom(model, modelUrl, fetch, current, total))
            == ExtractAll(model, page.containers)
               + Rows(CrawlFrom(model, modelUrl, fetch, current + 1, NextTotal(current, total, page)))
  {
    var page := fetch(PageUrl(modelUrl, current)).value;
    CrawlFromStep(model, modelUrl, fetch, current, total);
    var v := Visit(current, PageUrl(modelUrl, current), ExtractAll(model, page.containers));
    var rest := CrawlFrom(model, modelUrl, fetch, current + 1, NextTotal(current, total, page));
    assert ([v] + rest)[1..] == rest;
  }

  /** A page that does not stop the loop contributes the rows extracted
      from it, then the walk goes on with the next page. */
  lemma CrawlFromContinues(model: string, modelUrl: string, fetch: Fetch, current: nat, total: nat,
                           rows: seq<Row>, nextTotal: nat)
    requires LoopState(current, total) && current <= total
    requires !Stops(model, modelUrl, fetch, current)
    requires rows == ExtractAll(model, fetch(PageUrl(modelUrl, current)).value.containers)
    requires nextTotal == NextTotal(current, total, fetch(PageUrl(modelUrl, current)).value)
    ensures LoopState(current + 1, nextTotal)
    ensures Rows(CrawlFrom(model, modelUrl, fetch, current, total))
            == rows + Rows(CrawlFrom(model, modelUrl, fetch, current + 1, nextTotal))
  {
    CrawlFromRows(model, modelUrl, fetch, current, total);
  }

  /** The `for container in product_containers` loop. */
  method ExtractProducts(modelName: string, productContainers: seq<Container>) returns (productsOnPage: seq<Row>)
    ensures productsOnPage == ExtractAll(modelName, productContainers)
  {
    productsOnPage := [];
    for j := 0 to |productContainers|
      invariant productsOnPage == ExtractAll(modelName, productContainers[..j])
    {
      assert productContainers[..j + 1][..j] == productContainers[..j];
      var product := ExtractProduct(modelName, productContainers[j]);
      if product.Some? {
        productsOnPage := productsOnPage + [product.value];
      }
    }
    assert productContainers[..|productContainers|] == productContainers;
  }

  /** One turn of the `scrape_model_page` loop up to the `extend`: fetch
      page `currentPage`, extract its rows and, on page 1, read the number
      of pages. `stop` is set where the loop `break`s. */
  method ScrapePage(modelName: string, modelUrl: string, fetch: Fetch, currentPage: nat, totalPages: nat)
    returns (stop: bool, productsOnPage: seq<Row>, nextTotal: nat)
    requires LoopState(currentPage, totalPages) && currentPage <= totalPages
    ensures stop <==> Stops(modelName, modelUrl, fetch, currentPage)
    ensures !stop ==> productsOnPage == ExtractAll(modelName, fetch(PageUrl(modelUrl, currentPage)).value.containers)
    ensures !stop ==> nextTotal == NextTotal(currentPage, totalPages, fetch(PageUrl(modelUrl, currentPage)).value)
  {
    productsOnPage := [];
    nextTotal := totalPages;
    var url := PageUrl(modelUrl, currentPage);
    var soup := fetch(url);
    if soup.None? {
      return true, productsOnPage, nextTotal;
    }
    var productContainers := soup.value.containers;
    if |productContainers| == 0 && currentPage == 1 {
      return true, productsOnPage, nextTotal;
    }

    productsOnPage := ExtractProducts(modelName, productContainers);

    if currentPage == 1 {
      var paginationLinks := soup.value.paginationHrefs;
      if |paginationLinks| > 0 {
        nextTotal := DiscoverTotalPages(paginationLinks);
      }
    }

    stop := |productsOnPage| == 0 && currentPage > 1;
  }

  /** `scrape_model_page`: the caller's list is extended by the rows of
      every page the walk visits, in order, and is otherwise unchanged. */
  method ScrapeModelPage(modelName: string, modelUrl: string, allProducts: ProductList, fetch: Fetch)
    modifies allProducts
    ensures allProducts.items == old(allProducts.items) + Rows(Crawl(modelName, modelUrl, fetch))
  {
    var currentPage := 1;
    var totalPages := 1;
    var productsCount := 0;
    ghost var expected := allProducts.items + Rows(Crawl(modelName, modelUrl, fetch));
    ghost var start := |allProducts.items|;

    while currentPage <= totalPages
      invariant LoopState(currentPage, totalPages)
      invariant expected == allProducts.items + Rows(CrawlFrom(modelName, modelUrl, fetch, currentPage, totalPages))
      invariant productsCount == |allProducts.items| - start
      decreases if currentPage == 1 then 1 else 0, totalPages + 1 - currentPage
    {
      var stop, productsOnPage, nextTotal := ScrapePage(modelName, modelUrl, fetch, currentPage, totalPages);
      if stop {
        CrawlFromStopped(modelName, modelUrl, fetch, currentPage, totalPages);
        break;
      }

      CrawlFromContinues(modelName, modelUrl, fetch, currentPage, totalPages, productsOnPage, nextTotal);
      ghost var rest := Rows(CrawlFrom(modelName, modelUrl, fetch, currentPage + 1, nextTotal));
      assert expected == (allProducts.items + productsOnPage) + rest;
      allProducts.Extend(productsOnPage);
      productsCount := productsCount + |productsOnPage|;
      currentPage := currentPage + 1;
      totalPages := nextTotal;
    }
  }
}
