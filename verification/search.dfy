/**
 * The search entry point of js/search.js and its two scans: searchData
 * picks a mode from the page, performSearch scans the product elements of
 * a listing page, fetchAndShowProducts scans the static product table,
 * showNoResults writes the escaped query. The result container and the
 * page are objects whose state these operations update in place. The
 * timers that delay each step are left out: the delayed step happens
 * at once.
 */
module Search {
  import opened Options
  import opened Text
  import opened HtmlEscape
  import opened UriComponent
  import opened Filtering
  import opened Catalog

  /** Where a search goes. */
  datatype Mode = Redirect | CatalogRender | Listing

  /** The home-page test on the location's path name. */
  predicate IsHomePage(path: string) {
    EndsWith(path, "index.html") || path == "/" || EndsWith(path, "/")
  }

  /**
   * The mode, tested in the order of the code: a page without product
   * elements that is not the home page redirects, the home page renders
   * the catalog whether or not it has product elements, any other page
   * scans its own elements.
   */
  function ResolveMode(itemCount: nat, path: string): (m: Mode)
    ensures m == Redirect <==> itemCount == 0 && !IsHomePage(path)
    ensures m == CatalogRender <==> IsHomePage(path)
    ensures m == Listing <==> itemCount > 0 && !IsHomePage(path)
  {
    if itemCount == 0 && !IsHomePage(path) then Redirect
    else if IsHomePage(path) then CatalogRender
    else Listing
  }

  /** The page the redirect mode navigates to. */
  function RedirectTarget(query: string): string {
    "shop.html?search=" + EncodeUriComponent(query)
  }

  /** What the result container shows, one entry per child block. */
  datatype Entry =
    | ListingCard(item: Item)          // a clone of a listing page's product card
    | CatalogCard(product: Product)    // a card built from a record of the product table
    | NoResults(escapedQuery: string)  // the "no results" block quoting the escaped query

  function ListingCards(items: seq<Item>): (r: seq<Entry>)
    ensures |r| == |items| && forall k :: 0 <= k < |items| ==> r[k] == ListingCard(items[k])
  {
    seq(|items|, k requires 0 <= k < |items| => ListingCard(items[k]))
  }

  function CatalogCards(ps: seq<Product>): (r: seq<Entry>)
    ensures |r| == |ps| && forall k :: 0 <= k < |ps| ==> r[k] == CatalogCard(ps[k])
  {
    seq(|ps|, k requires 0 <= k < |ps| => CatalogCard(ps[k]))
  }

  function NoResultsBlock(query: string): seq<Entry> {
    [NoResults(EscapeHtml(query))]
  }

  /** The container after a listing-page scan: the matching cards, or the notice when there are none. */
  function ListingResults(query: string, items: seq<Item>): seq<Entry> {
    var hits := Select(query, items, ItemFields);
    if hits == [] then NoResultsBlock(query) else ListingCards(hits)
  }

  /** A matching element without a `.card` stops the listing scan: cloning its card throws. */
  predicate Breaks(query: string, it: Item) {
    Matches(query, ItemFields(it)) && !it.hasCard
  }

  /** The position of the first element that stops the listing scan, or the number of elements when none does. */
  function FirstBreak(query: string, items: seq<Item>): (j: nat)
    ensures j <= |items|
    ensures forall k :: 0 <= k < j ==> !Breaks(query, items[k])
    ensures j < |items| ==> Breaks(query, items[j])
  {
    if items == [] then 0
    else if Breaks(query, items[0]) then 0
    else 1 + FirstBreak(query, items[1..])
  }

  /**
   * The container after a listing scan that may throw: when an element
   * stops it, the cards appended before stay and no notice follows;
   * otherwise the scan completes.
   */
  function ListingOutcome(query: string, items: seq<Item>): seq<Entry> {
    var j := FirstBreak(query, items);
    if j < |items| then ListingCards(Select(query, items[..j], ItemFields)) else ListingResults(query, items)
  }

  /** The scan stops at `i` when nothing before `i` stops it and the element at `i` does. */
  lemma BreakAt(query: string, items: seq<Item>, i: nat)
    requires i < |items| && Breaks(query, items[i])
    requires i <= FirstBreak(query, items)
    ensures FirstBreak(query, items) == i
    ensures ListingOutcome(query, items) == ListingCards(Select(query, items[..i], ItemFields))
    ensures |Select(query, items[..i + 1], ItemFields)| == |Select(query, items[..i], ItemFields)| + 1
  {
    ScanStep(query, items, ItemFields, i);
  }

  /** Without an element that stops it, the scan completes. */
  lemma NoBreak(query: string, items: seq<Item>)
    requires FirstBreak(query, items) == |items|
    ensures ListingOutcome(query, items) == ListingResults(query, items)
    ensures items[..|items|] == items
  {
  }

  /** An element that does not stop the scan lets it go on past it. */
  lemma PassOver(query: string, items: seq<Item>, i: nat)
    requires i < |items| && !Breaks(query, items[i])
    requires i <= FirstBreak(query, items)
    ensures i + 1 <= FirstBreak(query, items)
  {
  }

  /** One step of a scan: the prefix grows by one element, and its card follows when it matches. */
  lemma ScanStep<T>(query: string, xs: seq<T>, fields: T -> Fields, i: nat)
    requires i < |xs|
    ensures Select(query, xs[..i + 1], fields)
      == Select(query, xs[..i], fields) + (if Matches(query, fields(xs[i])) then [xs[i]] else [])
  {
    FilterAppend(Matcher(query, fields), xs[..i], [xs[i]]);
    assert xs[..i + 1] == xs[..i] + [xs[i]];
  }

  /** One step of the listing scan: the cards so far, then the next element's card when it matches. */
  lemma ListingStep(query: string, items: seq<Item>, i: nat)
    requires i < |items|
    ensures var before := Select(query, items[..i], ItemFields);
      var after := Select(query, items[..i + 1], ItemFields);
      if Matches(query, ItemFields(items[i]))
      then |after| == |before| + 1 && ListingCards(after) == ListingCards(before) + [ListingCard(items[i])]
      else after == before
  {
    ScanStep(query, items, ItemFields, i);
  }

  /** The container after a scan of the product table. */
  function CatalogResults(query: string): seq<Entry> {
    var hits := Select(query, ProductData, ProductFields);
    if hits == [] then NoResultsBlock(query) else CatalogCards(hits)
  }

  /** The filter comes back empty exactly when no candidate matches. */
  lemma SelectEmpty<T>(query: string, xs: seq<T>, fields: T -> Fields)
    ensures Select(query, xs, fields) == [] <==> forall i :: 0 <= i < |xs| ==> !Matches(query, fields(xs[i]))
  {
    var idx := FilterPositions(Matcher(query, fields), xs);
    if Select(query, xs, fields) == [] {
      forall i | 0 <= i < |xs| ensures !Matches(query, fields(xs[i])) {
        assert i !in idx;
      }
    } else {
      assert idx[0] < |xs| && Matches(query, fields(xs[idx[0]]));
    }
  }

  /**
   * After a listing-page scan the container holds the notice exactly when
   * no product element matches; otherwise it holds one card per matching
   * element and nothing else: `idx` gives their positions on the page,
   * strictly increasing, and lists exactly the positions that match.
   */
  lemma ListingResultsExact(query: string, items: seq<Item>) returns (idx: seq<nat>)
    ensures var e := ListingResults(query, items);
      (e == NoResultsBlock(query) <==> forall i :: 0 <= i < |items| ==> !Matches(query, ItemFields(items[i])))
      && (e != NoResultsBlock(query) ==>
            |e| == |idx|
            && (forall k :: 0 <= k < |idx| ==> idx[k] < |items| && e[k] == ListingCard(items[idx[k]]))
            && (forall k, l :: 0 <= k < l < |idx| ==> idx[k] < idx[l])
            && (forall i :: 0 <= i < |items| ==> (i in idx <==> Matches(query, ItemFields(items[i])))))
  {
    idx := FilterPositions(Matcher(query, ItemFields), items);
    SelectEmpty(query, items, ItemFields);
    var hits := Select(query, items, ItemFields);
    if hits != [] {
      assert ListingCards(hits)[0] != NoResults(EscapeHtml(query));
    }
  }

  /**
   * After a listing scan that throws at element `j`, the container holds
   * no notice, only the cards of the matching elements before `j`, in page
   * order: `idx` lists exactly their positions, and every later match is lost.
   */
  lemma BrokenScanExact(query: string, items: seq<Item>) returns (idx: seq<nat>)
    requires FirstBreak(query, items) < |items|
    ensures var e := ListingOutcome(query, items); var j := FirstBreak(query, items);
      (forall k :: 0 <= k < |e| ==> !e[k].NoResults?)
      && |e| == |idx|
      && (forall k :: 0 <= k < |idx| ==> idx[k] < j && e[k] == ListingCard(items[idx[k]]))
      && (forall k, l :: 0 <= k < l < |idx| ==> idx[k] < idx[l])
      && (forall i :: 0 <= i < j ==> (i in idx <==> Matches(query, ItemFields(items[i]))))
  {
    var j := FirstBreak(query, items);
    idx := FilterPositions(Matcher(query, ItemFields), items[..j]);
  }

  /** The same for a scan of the product table: the cards are the matching records, in table order. */
  lemma CatalogResultsExact(query: string) returns (idx: seq<nat>)
    ensures var e := CatalogResults(query);
      (e == NoResultsBlock(query) <==> forall i :: 0 <= i < |ProductData| ==> !Matches(query, ProductFields(ProductData[i])))
      && (e != NoResultsBlock(query) ==>
            |e| == |idx|
            && (forall k :: 0 <= k < |idx| ==> idx[k] < |ProductData| && e[k] == CatalogCard(ProductData[idx[k]]))
            && (forall k, l :: 0 <= k < l < |idx| ==> idx[k] < idx[l])
            && (forall i :: 0 <= i < |ProductData| ==> (i in idx <==> Matches(query, ProductFields(ProductData[i])))))
  {
    idx := FilterPositions(Matcher(query, ProductFields), ProductData);
    SelectEmpty(query, ProductData, ProductFields);
    var hits := Select(query, ProductData, ProductFields);
    if hits != [] {
      assert CatalogCards(hits)[0] != NoResults(EscapeHtml(query));
    }
  }

  /** The notice quotes the query as inert text: no markup character survives, and decoding gives the query back. */
  lemma NoticeQuotesQuery(query: string)
    ensures |NoResultsBlock(query)| == 1
    ensures IsMarkupSafe(NoResultsBlock(query)[0].escapedQuery)
    ensures Unescape(NoResultsBlock(query)[0].escapedQuery) == query
  {
    EscapeHtmlSafe(query);
    UnescapeEscapeHtml(query);
  }

  /**
   * The redirect target is the listing page with one search parameter
   * whose value holds no delimiter and decodes to the query.
   */
  lemma RedirectCarriesQuery(query: string)
    ensures var t := RedirectTarget(query);
      |t| >= 17 && t[..17] == "shop.html?search="
      && IsUriSafe(t[17..])
      && DecodeUriComponent(t[17..]) == Some(query)
  {
    var t := RedirectTarget(query);
    assert t[17..] == EncodeUriComponent(query);
    EncodeIsUriSafe(query);
    DecodeEncode(query);
  }

  /** The test `path === '/'` adds nothing: such a path already ends in '/'. */
  lemma HomePageBySuffix(path: string)
    ensures IsHomePage(path) <==> EndsWith(path, "index.html") || EndsWith(path, "/")
  {
    if path == "/" {
      assert path[|path| - 1..] == "/";
    }
  }

  /** The query searchData works on: its argument when it is given one, else the input's value, else empty. */
  function RawQuery(provided: Option<string>, inputValue: Option<string>): string {
    match provided
    case Some(q) => q
    case None => (match inputValue case Some(v) => v case None => [])
  }

  /** The #result container: its child blocks and whether its class list holds "loading". */
  class ResultBox {
    var entries: seq<Entry>
    var loading: bool

    constructor ()
      ensures entries == [] && !loading
    {
      entries := [];
      loading := false;
    }

    /** The reset of the input and offcanvas handlers: no content, the plain class list. */
    method Clear()
      modifies this
      ensures entries == [] && !loading
    {
      entries := [];
      loading := false;
    }

    /** The loading state searchData sets before it dispatches. */
    method ShowLoading()
      modifies this
      ensures entries == [] && loading
    {
      loading := true;
      entries := [];
    }

    /** showNoResults: the content becomes the one notice, quoting the escaped query. */
    method ShowNoResults(query: string)
      modifies this
      ensures entries == NoResultsBlock(query) && loading == old(loading)
    {
      entries := NoResultsBlock(query);
    }

    /**
     * performSearch: clear the container, append a card for every product
     * element that matches, in page order, count them, and show the
     * notice when the count is zero. A matching element without a `.card`
     * throws when its card is cloned: the scan stops there with `thrown`,
     * after `found` has counted that element.
     */
    method PerformSearch(query: string, items: seq<Item>) returns (found: nat, thrown: bool)
      modifies this
      ensures !loading
      ensures thrown <==> FirstBreak(query, items) < |items|
      ensures thrown ==> found == |Select(query, items[..FirstBreak(query, items) + 1], ItemFields)|
      ensures !thrown ==> found == |Select(query, items, ItemFields)|
      ensures entries == ListingOutcome(query, items)
    {
      loading := false;
      entries := [];
      found := 0;
      thrown := false;
      var i := 0;
      while i < |items|
        invariant 0 <= i <= |items|
        invariant !loading && !thrown
        invariant i <= FirstBreak(query, items)
        invariant entries == ListingCards(Select(query, items[..i], ItemFields))
        invariant found == |Select(query, items[..i], ItemFields)|
      {
        ListingStep(query, items, i);
        if Matches(query, ItemFields(items[i])) {
          found := found + 1;
          if !items[i].hasCard {
            thrown := true;
            BreakAt(query, items, i);
            return;
          }
          entries := entries + [ListingCard(items[i])];
        }
        PassOver(query, items, i);
        i := i + 1;
      }
      NoBreak(query, items);
      if found == 0 {
        ShowNoResults(query);
      }
    }

    /**
     * fetchAndShowProducts: the same scan over the static product table,
     * appending a card built from each matching record.
     */
    method FetchAndShowProducts(query: string) returns (found: nat)
      modifies this
      ensures !loading
      ensures found == |Select(query, ProductData, ProductFields)|
      ensures entries == CatalogResults(query)
    {
      loading := false;
      entries := [];
      found := 0;
      var table := ProductData;
      var i := 0;
      while i < |table|
        invariant 0 <= i <= |table|
        invariant !loading
        invariant entries == CatalogCards(Select(query, table[..i], ProductFields))
        invariant found == |Select(query, table[..i], ProductFields)|
      {
        var product := table[i];
        ScanStep(query, table, ProductFields, i);
        if Matches(query, ProductFields(product)) {
          found := found + 1;
          entries := entries + [CatalogCard(product)];
        }
        i := i + 1;
      }
      assert table[..i] == table;
      if found == 0 {
        ShowNoResults(query);
      }
    }
  }

  /**
   * The page a search runs on: its path, its product elements, the result
   * container, whether it has the offcanvas panel and the search input,
   * the panel's "search-active" class and where the page has navigated.
   */
  class Page {
    const path: string
    const items: seq<Item>
    const box: ResultBox
    const hasOffcanvas: bool
    var inputValue: Option<string>
    var searchActive: bool
    var href: Option<string>

    constructor (path: string, items: seq<Item>, hasOffcanvas: bool, inputValue: Option<string>)
      ensures this.path == path && this.items == items && this.hasOffcanvas == hasOffcanvas
      ensures this.inputValue == inputValue && !searchActive && href == None
      ensures fresh(box) && box.entries == [] && !box.loading
    {
      this.path := path;
      this.items := items;
      this.hasOffcanvas := hasOffcanvas;
      this.inputValue := inputValue;
      searchActive := false;
      href := None;
      box := new ResultBox();
    }

    /**
     * searchData: an empty trimmed query changes nothing; otherwise the
     * panel expands, the container shows the loading state and the mode
     * decides what follows.
     */
    method SearchData(provided: Option<string>)
      modifies this, box
      ensures inputValue == old(inputValue)
      ensures var query := Trim(RawQuery(provided, old(inputValue)));
        if query == [] then
          unchanged(this, box)
        else
          searchActive == (hasOffcanvas || old(searchActive))
          && match ResolveMode(|items|, path)
             case Redirect =>
               href == Some(RedirectTarget(query)) && box.entries == [] && box.loading
             case CatalogRender =>
               href == old(href) && box.entries == CatalogResults(query) && !box.loading
             case Listing =>
               href == old(href) && box.entries == ListingOutcome(query, items) && !box.loading
    {
      var query := Trim(RawQuery(provided, inputValue));
      if query == [] {
        return;
      }
      if hasOffcanvas {
        searchActive := true;
      }
      box.ShowLoading();
      var home := IsHomePage(path);
      if |items| == 0 && !home {
        href := Some(RedirectTarget(query));
        return;
      }
      if home {
        var _ := box.FetchAndShowProducts(query);
        return;
      }
      var _, _ := box.PerformSearch(query, items);
    }

    /** goToShopWithSearch: navigate to the listing page with the query as given. */
    method GoToShopWithSearch(query: string)
      modifies this
      ensures href == Some(RedirectTarget(query))
      ensures inputValue == old(inputValue) && searchActive == old(searchActive)
    {
      href := Some(RedirectTarget(query));
    }

    /** The input listener: once the trimmed value is empty, the container and the panel are reset. */
    method OnInput()
      requires inputValue.Some?
      modifies this, box
      ensures inputValue == old(inputValue) && href == old(href)
      ensures if Trim(inputValue.value) == [] then
          box.entries == [] && !box.loading && (hasOffcanvas ==> !searchActive) && (!hasOffcanvas ==> searchActive == old(searchActive))
        else
          unchanged(this, box)
    {
      if Trim(inputValue.value) == [] {
        box.Clear();
        if hasOffcanvas {
          searchActive := false;
        }
      }
    }

    /** The listener for the panel being hidden: reset the panel and the container, empty the input. */
    method OnOffcanvasHidden()
      requires hasOffcanvas
      modifies this, box
      ensures !searchActive && box.entries == [] && !box.loading && href == old(href)
      ensures inputValue == if old(inputValue).Some? then Some([]) else None
    {
      searchActive := false;
      box.Clear();
      if inputValue.Some? {
        inputValue := Some([]);
      }
    }
  }
}
