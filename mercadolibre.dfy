/**
 * The MercadoLibre search scraper (`bot2.js`): the laptop search results are read page after
 * page, every result with its name, price and link (each with a text fallback, nothing cleaned
 * and nothing filtered), the "next" link is followed while it exists, and the total is the
 * number of results read.
 */
module MercadoLibre {
  import opened Options
  import opened Fields
  import Seqs

  /** The search the script opens. */
  const SearchUrl := "https://listado.mercadolibre.com.co/laptops"

  const NoName := "Nombre no disponible"
  const NoPrice := "Precio no disponible"
  const NoLink := "Sin enlace"

  /** What one result shows: its title, its price fraction and its link's `href`, `None` when absent. */
  datatype ResultItem = ResultItem(title: Option<string>, price: Option<string>, href: Option<string>)

  /** One result as the script keeps it. */
  datatype Product = Product(name: string, price: string, link: string)

  /** `el?.href || "Sin enlace"`: the link as the browser resolves it, untrimmed, or the fallback. */
  function LinkOr(href: Option<string>): (r: string)
    ensures r == NoLink || (href == Some(r) && r != [])
  {
    match href
    case None => NoLink
    case Some(h) => if h == [] then NoLink else h
  }

  /** The result callback: name and price trimmed with their fallbacks, the link as it is. */
  function ReadResult(item: ResultItem): Product {
    Product(FieldOr(item.title, NoName), FieldOr(item.price, NoPrice), LinkOr(item.href))
  }

  /**
   * One results page: its results, whether they appear within the wait, and whether the "next"
   * link exists.
   */
  datatype ResultsPage = ResultsPage(items: seq<ResultItem>, itemsShown: bool, hasNext: bool)

  /** The search: the first results page and those reached by following "next". */
  datatype Search = Search(first: ResultsPage, following: seq<ResultsPage>) {
    function Pages(): seq<ResultsPage> {
      [first] + following
    }
  }

  /** Why the `while (true)` loop ended. */
  datatype Stop =
    | LastPage    // no "next" link: the loop breaks
    | Aborted     // the results never appeared: the wait throws and the script ends
    | EndOfInput  // the model's list of pages is exhausted

  datatype Crawl = Crawl(products: seq<Product>, visited: nat, why: Stop)

  /** The products one page gives: one per result, in result order. */
  function ReadPage(read: ResultItem -> Product, p: ResultsPage): seq<Product> {
    Seqs.Map(read, p.items)
  }

  /** The loop from page `i` on. */
  function SearchFrom(read: ResultItem -> Product, pages: seq<ResultsPage>, i: nat): Crawl
    requires i < |pages|
    decreases |pages| - i
  {
    if !pages[i].itemsShown then Crawl([], 0, Aborted)
    else
      var here := ReadPage(read, pages[i]);
      if !pages[i].hasNext then Crawl(here, 1, LastPage)
      else if i + 1 == |pages| then Crawl(here, 1, EndOfInput)
      else
        var rest := SearchFrom(read, pages, i + 1);
        Crawl(here + rest.products, rest.visited + 1, rest.why)
  }

  function SearchOf(read: ResultItem -> Product, search: Search): Crawl {
    SearchFrom(read, search.Pages(), 0)
  }

  /** The reads of consecutive pages, concatenated in page order. */
  function Reads(read: ResultItem -> Product, pages: seq<ResultsPage>): seq<Product> {
    if pages == [] then [] else ReadPage(read, pages[0]) + Reads(read, pages[1..])
  }

  /** The number of results on consecutive pages. */
  function ItemCount(pages: seq<ResultsPage>): nat {
    if pages == [] then 0 else |pages[0].items| + ItemCount(pages[1..])
  }

  // ---------------------------------------------------------------------------------------------
  // One step of the loop

  lemma SearchAborts(read: ResultItem -> Product, pages: seq<ResultsPage>, i: nat)
    requires i < |pages| && !pages[i].itemsShown
    ensures SearchFrom(read, pages, i) == Crawl([], 0, Aborted)
  {
  }

  lemma SearchEnds(read: ResultItem -> Product, pages: seq<ResultsPage>, i: nat)
    requires i < |pages| && pages[i].itemsShown
    requires !pages[i].hasNext || i + 1 == |pages|
    ensures SearchFrom(read, pages, i)
      == Crawl(ReadPage(read, pages[i]), 1, if !pages[i].hasNext then LastPage else EndOfInput)
  {
  }

  lemma SearchAdvances(read: ResultItem -> Product, pages: seq<ResultsPage>, i: nat)
    requires i + 1 < |pages| && pages[i].itemsShown && pages[i].hasNext
    ensures SearchFrom(read, pages, i).products == ReadPage(read, pages[i]) + SearchFrom(read, pages, i + 1).products
    ensures SearchFrom(read, pages, i).visited == SearchFrom(read, pages, i + 1).visited + 1
    ensures SearchFrom(read, pages, i).why == SearchFrom(read, pages, i + 1).why
  {
  }

  /** Across one advance, what was read before plus what remains stays the same. */
  lemma SearchAdvancesAfter(read: ResultItem -> Product, pages: seq<ResultsPage>, i: nat, done: seq<Product>)
    requires i + 1 < |pages| && pages[i].itemsShown && pages[i].hasNext
    ensures done + SearchFrom(read, pages, i).products
      == (done + ReadPage(read, pages[i])) + SearchFrom(read, pages, i + 1).products
  {
    SearchAdvances(read, pages, i);
  }

  // ---------------------------------------------------------------------------------------------
  // The loops

  /** The `while (true)` loop over the results pages. */
  method CrawlSearch(read: ResultItem -> Product, search: Search)
    returns (allProducts: seq<Product>, visited: nat, why: Stop)
    ensures allProducts == SearchOf(read, search).products
    ensures visited == SearchOf(read, search).visited
    ensures why == SearchOf(read, search).why
  {
    var pages := search.Pages();
    ghost var total := SearchOf(read, search);
    var i := 0;
    allProducts := [];
    visited := 0;
    while true
      invariant i < |pages|
      invariant allProducts + SearchFrom(read, pages, i).products == total.products
      invariant visited + SearchFrom(read, pages, i).visited == total.visited
      invariant SearchFrom(read, pages, i).why == total.why
      decreases |pages| - i
    {
      var page := pages[i];
      if !page.itemsShown {
        SearchAborts(read, pages, i);
        why := Aborted;
        break;
      }
      ghost var before := allProducts;
      allProducts := Seqs.AppendMapped(read, page.items, allProducts);
      visited := visited + 1;
      if !page.hasNext {
        SearchEnds(read, pages, i);
        why := LastPage;
        break;
      }
      if i + 1 == |pages| {
        SearchEnds(read, pages, i);
        why := EndOfInput;
        break;
      }
      SearchAdvances(read, pages, i);
      SearchAdvancesAfter(read, pages, i, before);
      i := i + 1;
    }
  }

  /**
   * The outcome of the script: the results read, how the loop ended, and the total it reports;
   * there is no total when a wait threw, since the script ends there.
   */
  datatype RunResult = RunResult(allProducts: seq<Product>, why: Stop, total: Option<nat>)

  /** The script: open the search, read every page, report how many results were read. */
  method Run(site: string -> Search) returns (result: RunResult)
    ensures result.allProducts == SearchOf(ReadResult, site(SearchUrl)).products
    ensures result.why == SearchOf(ReadResult, site(SearchUrl)).why
    ensures result.total.None? <==> result.why == Aborted
    ensures result.total.Some? ==> result.total.value == |result.allProducts|
  {
    var allProducts, visited, why := CrawlSearch(ReadResult, site(SearchUrl));
    var total := if why == Aborted then None else Some(|allProducts|);
    result := RunResult(allProducts, why, total);
  }

  // ---------------------------------------------------------------------------------------------
  // Properties of one result

  /** A result without a title, or with a blank one, is kept under the name fallback. */
  lemma NamelessResultKept(item: ResultItem)
    requires item.title.None? || JsString.Trim(item.title.value) == []
    ensures ReadResult(item).name == NoName
  {
  }

  /** The price is the trimmed text as shown: a price that needs no trimming is kept as it is, symbols included. */
  lemma PriceNotCleaned(item: ResultItem, text: string)
    requires item.price == Some(text) && text != [] && JsString.IsTrimmed(text)
    ensures ReadResult(item).price == text
  {
    JsString.TrimOfTrimmed(text);
  }

  /** The link is not trimmed: any non-empty `href` is kept exactly. */
  lemma LinkKeptAsIs(item: ResultItem)
    requires item.href.Some? && item.href.value != []
    ensures ReadResult(item).link == item.href.value
  {
  }

  // ---------------------------------------------------------------------------------------------
  // Properties of the loop

  /** Nothing is filtered: the products are every result of every page read, in page order. */
  predicate ProductsArePageReads(read: ResultItem -> Product, pages: seq<ResultsPage>, i: nat)
    requires i < |pages|
  {
    var c := SearchFrom(read, pages, i);
    i + c.visited <= |pages| && c.products == Reads(read, pages[i..i + c.visited])
  }

  lemma SearchRecordsLast(read: ResultItem -> Product, pages: seq<ResultsPage>, i: nat)
    requires i < |pages| && pages[i].itemsShown
    requires !pages[i].hasNext || i + 1 == |pages|
    ensures ProductsArePageReads(read, pages, i)
  {
    SearchEnds(read, pages, i);
    assert pages[i..i + 1] == [pages[i]];
    assert Reads(read, [pages[i]]) == ReadPage(read, pages[i]) + Reads(read, []);
  }

  lemma SearchRecordsStep(read: ResultItem -> Product, pages: seq<ResultsPage>, i: nat)
    requires i + 1 < |pages| && pages[i].itemsShown && pages[i].hasNext
    requires ProductsArePageReads(read, pages, i + 1)
    ensures ProductsArePageReads(read, pages, i)
  {
    var rest := SearchFrom(read, pages, i + 1);
    SearchAdvances(read, pages, i);
    var n := i + 1 + rest.visited;
    assert pages[i..n][1..] == pages[i + 1..n];
  }

  lemma {:induction false} SearchRecords(read: ResultItem -> Product, pages: seq<ResultsPage>, i: nat)
    requires i < |pages|
    ensures ProductsArePageReads(read, pages, i)
    decreases |pages| - i
  {
    if !pages[i].itemsShown {
      SearchAborts(read, pages, i);
      assert pages[i..i] == [];
    } else if !pages[i].hasNext || i + 1 == |pages| {
      SearchRecordsLast(read, pages, i);
    } else {
      SearchRecords(read, pages, i + 1);
      SearchRecordsStep(read, pages, i);
    }
  }

  /** The total is the sum of the per-page result counts. */
  lemma {:induction false} ReadsCount(read: ResultItem -> Product, pages: seq<ResultsPage>)
    ensures |Reads(read, pages)| == ItemCount(pages)
  {
    if pages != [] {
      ReadsCount(read, pages[1..]);
    }
  }

  /** The reported total equals the number of results on the pages read. */
  lemma TotalIsItemCount(read: ResultItem -> Product, search: Search)
    ensures var c := SearchOf(read, search);
      c.visited <= |search.Pages()| && |c.products| == ItemCount(search.Pages()[..c.visited])
  {
    SearchRecords(read, search.Pages(), 0);
    var c := SearchOf(read, search);
    assert search.Pages()[0..c.visited] == search.Pages()[..c.visited];
    ReadsCount(read, search.Pages()[..c.visited]);
  }

  /** The pages from `i` to `j` all show results, all but `j` have a "next" link, and `j` has none. */
  predicate ChainEndsAt(pages: seq<ResultsPage>, i: nat, j: nat) {
    && i <= j < |pages|
    && (forall k :: i <= k <= j ==> pages[k].itemsShown)
    && (forall k :: i <= k < j ==> pages[k].hasNext)
    && !pages[j].hasNext
  }

  /**
   * The loop goes on exactly while a "next" link exists: it reads every page up to the first one
   * without the link, that one included, and stops there.
   */
  lemma {:induction false} StopsAtFirstPageWithoutNext(read: ResultItem -> Product, pages: seq<ResultsPage>, i: nat, j: nat)
    requires ChainEndsAt(pages, i, j)
    ensures SearchFrom(read, pages, i).visited == j - i + 1
    ensures SearchFrom(read, pages, i).why == LastPage
    decreases j - i
  {
    if i == j {
      SearchEnds(read, pages, i);
    } else {
      assert ChainEndsAt(pages, i + 1, j);
      StopsAtFirstPageWithoutNext(read, pages, i + 1, j);
      SearchAdvances(read, pages, i);
    }
  }
}
