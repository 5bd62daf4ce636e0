/**
 * The single-category Challenger scraper (`bot.js`): the category typed by the operator is opened,
 * every grid card of every page is read straight from the listing, the pager button is clicked up
 * to the counted number of pages, and the records with a known reference and price are posted.
 * A pager button that never becomes visible, or a click that throws, ends the whole script before
 * anything is posted.
 */
module GridBot {
  import opened Options
  import opened JsString
  import opened Fields
  import Challenger
  import Delivery
  import Seqs

  /** The `alt` fallback when a card has no image or an empty `alt`. */
  const NoAlt := "Sin_alt"

  /** `img?.alt || "Sin_alt"`. */
  function AltOr(alt: Option<string>): (r: string)
    ensures alt.Some? && alt.value != [] ==> r == alt.value
    ensures alt.None? || alt == Some([]) ==> r == NoAlt
    ensures r != []
  {
    match alt
    case None => NoAlt
    case Some(a) => if a == [] then NoAlt else a
  }

  /** `(alt || "Sin_alt").split("_")[0].replace("-", "")`: the text before the first `_`, first `-` removed. */
  function CategoryFromAlt(alt: Option<string>): string {
    ReplaceFirst(Split(AltOr(alt), '_')[0], '-')
  }

  /** What one grid card shows: its title, its image's `alt` and its best price, each `None` when absent. */
  datatype GridItem = GridItem(title: Option<string>, alt: Option<string>, price: Option<string>)

  /** The card callback: reference from the title (fallback `"0"`), category from the image, cleaned price. */
  function ReadItem(item: GridItem): Record {
    Record(CategoryFromAlt(item.alt), FieldOr(item.title, Missing), PriceField(item.price))
  }

  /**
   * One listing page: its cards, whether the pager button becomes visible within the wait,
   * whether the lookup that follows finds it, and whether the click goes through.
   */
  datatype GridPage = GridPage(items: seq<GridItem>, buttonVisible: bool, buttonFound: bool, clickOk: bool)

  /** The category: the `.page-number` count of its first page, the first page and those reached by clicking. */
  datatype GridListing = GridListing(pageNumbers: nat, landing: GridPage, following: seq<GridPage>) {
    function Pages(): seq<GridPage> {
      [landing] + following
    }
  }

  /** Why the page loop ended. */
  datatype Stop =
    | PageLimit   // the page counter passed the `.page-number` count
    | NoButton    // the lookup after the wait found no button
    | Aborted     // the visibility wait timed out or the click threw: the script ends here
    | EndOfInput  // the model's list of pages is exhausted

  datatype Crawl = Crawl(records: seq<Record>, visited: nat, why: Stop)

  /** The records one page gives: one per card, in card order, ungated. */
  function ReadPage(read: GridItem -> Record, p: GridPage): seq<Record> {
    Seqs.Map(read, p.items)
  }

  /** The page loop from page `i` (page counter `i + 1`) of a category counting `count` pages. */
  function GridFrom(read: GridItem -> Record, pages: seq<GridPage>, i: nat, count: nat): Crawl
    requires i <= |pages|
    decreases |pages| - i
  {
    if count < i + 1 then Crawl([], 0, PageLimit)
    else if i == |pages| then Crawl([], 0, EndOfInput)
    else
      var here := ReadPage(read, pages[i]);
      if !pages[i].buttonVisible then Crawl(here, 1, Aborted)
      else if !pages[i].buttonFound then Crawl(here, 1, NoButton)
      else if !pages[i].clickOk then Crawl(here, 1, Aborted)
      else
        var rest := GridFrom(read, pages, i + 1, count);
        Crawl(here + rest.records, rest.visited + 1, rest.why)
  }

  function GridCrawlOf(read: GridItem -> Record, listing: GridListing): Crawl {
    GridFrom(read, listing.Pages(), 0, listing.pageNumbers)
  }

  /** The reads of consecutive pages, concatenated in page order. */
  function Reads(read: GridItem -> Record, pages: seq<GridPage>): seq<Record> {
    if pages == [] then [] else ReadPage(read, pages[0]) + Reads(read, pages[1..])
  }

  // ---------------------------------------------------------------------------------------------
  // One step of the page loop

  lemma GridOver(read: GridItem -> Record, pages: seq<GridPage>, i: nat, count: nat)
    requires i <= |pages| && count < i + 1
    ensures GridFrom(read, pages, i, count) == Crawl([], 0, PageLimit)
  {
  }

  lemma GridRunsOut(read: GridItem -> Record, pages: seq<GridPage>, i: nat, count: nat)
    requires i == |pages| && i + 1 <= count
    ensures GridFrom(read, pages, i, count) == Crawl([], 0, EndOfInput)
  {
  }

  /** The outcome on page `i` when it does not lead to the next page. */
  function Blocked(p: GridPage): Stop {
    if !p.buttonVisible then Aborted else if !p.buttonFound then NoButton else Aborted
  }

  lemma GridStops(read: GridItem -> Record, pages: seq<GridPage>, i: nat, count: nat)
    requires i < |pages| && i + 1 <= count
    requires !(pages[i].buttonVisible && pages[i].buttonFound && pages[i].clickOk)
    ensures GridFrom(read, pages, i, count) == Crawl(ReadPage(read, pages[i]), 1, Blocked(pages[i]))
  {
  }

  lemma GridAdvances(read: GridItem -> Record, pages: seq<GridPage>, i: nat, count: nat)
    requires i < |pages| && i + 1 <= count
    requires pages[i].buttonVisible && pages[i].buttonFound && pages[i].clickOk
    ensures GridFrom(read, pages, i, count).records
      == ReadPage(read, pages[i]) + GridFrom(read, pages, i + 1, count).records
    ensures GridFrom(read, pages, i, count).visited == GridFrom(read, pages, i + 1, count).visited + 1
    ensures GridFrom(read, pages, i, count).why == GridFrom(read, pages, i + 1, count).why
  {
  }

  /** Across one advance, what was read before plus what remains stays the same. */
  lemma GridAdvancesAfter(read: GridItem -> Record, pages: seq<GridPage>, i: nat, count: nat, done: seq<Record>)
    requires i < |pages| && i + 1 <= count
    requires pages[i].buttonVisible && pages[i].buttonFound && pages[i].clickOk
    ensures done + GridFrom(read, pages, i, count).records
      == (done + ReadPage(read, pages[i])) + GridFrom(read, pages, i + 1, count).records
  {
    GridAdvances(read, pages, i, count);
  }

  // ---------------------------------------------------------------------------------------------
  // The loops

  /** The `while (pageNumber < next.length + 1)` loop. */
  method CrawlGrid(read: GridItem -> Record, listing: GridListing)
    returns (allProducts: seq<Record>, visited: nat, why: Stop)
    ensures allProducts == GridCrawlOf(read, listing).records
    ensures visited == GridCrawlOf(read, listing).visited
    ensures why == GridCrawlOf(read, listing).why
  {
    var pages := listing.Pages();
    var count := listing.pageNumbers;
    ghost var total := GridCrawlOf(read, listing);
    var pageNumber := 1;
    var i := 0;
    allProducts := [];
    visited := 0;
    why := PageLimit;
    while pageNumber < count + 1
      invariant i <= |pages| && pageNumber == i + 1
      invariant allProducts + GridFrom(read, pages, i, count).records == total.records
      invariant visited + GridFrom(read, pages, i, count).visited == total.visited
      invariant GridFrom(read, pages, i, count).why == total.why
      invariant why == PageLimit
      decreases count + 1 - pageNumber
    {
      if i == |pages| {
        GridRunsOut(read, pages, i, count);
        why := EndOfInput;
        break;
      }
      var page := pages[i];
      ghost var before := allProducts;
      allProducts := Seqs.AppendMapped(read, page.items, allProducts);
      visited := visited + 1;
      if !page.buttonVisible {
        GridStops(read, pages, i, count);
        why := Aborted;
        break;
      }
      if !page.buttonFound {
        GridStops(read, pages, i, count);
        why := NoButton;
        break;
      }
      if !page.clickOk {
        GridStops(read, pages, i, count);
        why := Aborted;
        break;
      }
      GridAdvances(read, pages, i, count);
      GridAdvancesAfter(read, pages, i, count, before);
      pageNumber := pageNumber + 1;
      i := i + 1;
    }
    if count < i + 1 {
      GridOver(read, pages, i, count);
    }
  }

  /** The outcome of the script: the page opened, the records read, how the loop ended, the posts. */
  datatype RunResult = RunResult(url: string, allProducts: seq<Record>, why: Stop, sent: seq<Record>)

  /**
   * The script for the category typed by the operator: the loop, then, unless it aborted, the
   * posts of every record whose reference and price are both known, in reading order.
   */
  method Run(category: string, site: string -> GridListing) returns (result: RunResult)
    ensures result.url == Challenger.CategoryUrl(Challenger.ChallengerHome, category)
    ensures result.allProducts == GridCrawlOf(ReadItem, site(result.url)).records
    ensures result.why == GridCrawlOf(ReadItem, site(result.url)).why
    ensures result.why == Aborted ==> result.sent == []
    ensures result.why != Aborted ==>
      result.sent == Seqs.Filter(Delivery.ReferenceAndPriceKnown, result.allProducts)
  {
    var url := Challenger.CategoryUrl(Challenger.ChallengerHome, category);
    var allProducts, visited, why := CrawlGrid(ReadItem, site(url));
    var sent: seq<Record> := [];
    if why != Aborted {
      var cont;
      sent, cont := Delivery.Deliver(Delivery.ReferenceAndPrice, allProducts);
      Delivery.PostedIsFilter(Delivery.ReferenceAndPrice, allProducts);
    }
    result := RunResult(url, allProducts, why, sent);
  }

  // ---------------------------------------------------------------------------------------------
  // Properties of the category from `alt`

  /** The category never holds `_`: it is the part before the first one. */
  lemma CategoryHasNoUnderscore(alt: Option<string>)
    ensures '_' !in CategoryFromAlt(alt)
  {
    var piece := Split(AltOr(alt), '_')[0];
    if '-' in piece {
      var k := IndexOf(piece, '-');
      assert forall c :: c in piece[..k] + piece[k + 1..] ==> c in piece;
    }
  }

  /** A card without an image, or with an empty `alt`, gets the category `"Sin"`. */
  lemma MissingAltGivesSin(alt: Option<string>)
    requires alt.None? || alt == Some([])
    ensures CategoryFromAlt(alt) == "Sin"
  {
    assert NoAlt == "Sin" + ['_'] + "alt";
    SplitAtFirst("Sin", "alt", '_');
  }

  /**
   * Only the first hyphen before the first underscore is removed: `a-b_y` gives `ab` when `a`
   * holds no hyphen and neither `a` nor `b` holds an underscore, whatever `b` and `y` hold.
   */
  lemma HyphenatedAltCategory(a: string, b: string, y: string)
    requires '-' !in a && '_' !in a && '_' !in b
    ensures CategoryFromAlt(Some(a + ['-'] + b + ['_'] + y)) == a + b
  {
    var x := a + ['-'] + b;
    assert '_' !in x;
    assert a + ['-'] + b + ['_'] + y == x + ['_'] + y;
    SplitAtFirst(x, y, '_');
    assert x[..|a|] == a && x[|a|] == '-' && x[|a| + 1..] == b;
    assert IndexOf(x, '-') == |a|;
  }

  // ---------------------------------------------------------------------------------------------
  // Properties of the page loop

  /**
   * The loop never reads more pages than counted nor more than exist; it stops on the limit
   * exactly after reading up to the count, and runs out only after reading every page.
   */
  lemma {:induction false} GridLimits(read: GridItem -> Record, pages: seq<GridPage>, i: nat, count: nat)
    requires i <= |pages| && i <= count
    ensures i + GridFrom(read, pages, i, count).visited <= count
    ensures i + GridFrom(read, pages, i, count).visited <= |pages|
    ensures GridFrom(read, pages, i, count).why == PageLimit ==> i + GridFrom(read, pages, i, count).visited == count
    ensures GridFrom(read, pages, i, count).why == EndOfInput ==> i + GridFrom(read, pages, i, count).visited == |pages|
    decreases |pages| - i
  {
    if count < i + 1 {
      GridOver(read, pages, i, count);
    } else if i == |pages| {
      GridRunsOut(read, pages, i, count);
    } else if !(pages[i].buttonVisible && pages[i].buttonFound && pages[i].clickOk) {
      GridStops(read, pages, i, count);
    } else {
      GridLimits(read, pages, i + 1, count);
      GridAdvances(read, pages, i, count);
    }
  }

  /** The records are every card of every visited page, concatenated in page order. */
  predicate RecordsArePageReads(read: GridItem -> Record, pages: seq<GridPage>, i: nat, count: nat)
    requires i <= |pages|
  {
    var c := GridFrom(read, pages, i, count);
    i + c.visited <= |pages| && c.records == Reads(read, pages[i..i + c.visited])
  }

  lemma GridRecordsStep(read: GridItem -> Record, pages: seq<GridPage>, i: nat, count: nat)
    requires i < |pages| && i + 1 <= count
    requires pages[i].buttonVisible && pages[i].buttonFound && pages[i].clickOk
    requires RecordsArePageReads(read, pages, i + 1, count)
    ensures RecordsArePageReads(read, pages, i, count)
  {
    var rest := GridFrom(read, pages, i + 1, count);
    GridAdvances(read, pages, i, count);
    var n := i + 1 + rest.visited;
    assert pages[i..n][1..] == pages[i + 1..n];
  }

  lemma {:induction false} GridRecords(read: GridItem -> Record, pages: seq<GridPage>, i: nat, count: nat)
    requires i <= |pages|
    ensures RecordsArePageReads(read, pages, i, count)
    decreases |pages| - i
  {
    if count < i + 1 {
      GridOver(read, pages, i, count);
    } else if i == |pages| {
      GridRunsOut(read, pages, i, count);
    } else if !(pages[i].buttonVisible && pages[i].buttonFound && pages[i].clickOk) {
      GridStops(read, pages, i, count);
      assert pages[i..i + 1] == [pages[i]];
      assert Reads(read, [pages[i]]) == ReadPage(read, pages[i]) + Reads(read, []);
    } else {
      GridRecords(read, pages, i + 1, count);
      GridRecordsStep(read, pages, i, count);
    }
  }

  /**
   * A category whose pages all show, find and click the button is read for exactly its counted
   * pages when at least that many exist, and the loop ends on the limit.
   */
  lemma {:induction false} CountBoundsGrid(read: GridItem -> Record, pages: seq<GridPage>, i: nat, count: nat)
    requires forall k :: 0 <= k < |pages| ==> pages[k].buttonVisible && pages[k].buttonFound && pages[k].clickOk
    requires i <= count <= |pages|
    ensures GridFrom(read, pages, i, count).visited == count - i
    ensures GridFrom(read, pages, i, count).why == PageLimit
    decreases |pages| - i
  {
    if count < i + 1 {
      GridOver(read, pages, i, count);
    } else {
      GridAdvances(read, pages, i, count);
      CountBoundsGrid(read, pages, i + 1, count);
    }
  }

  /**
   * A button that never becomes visible on a page that is read ends the script: whatever the
   * earlier pages gave is lost, nothing is posted.
   */
  lemma HiddenButtonAborts(read: GridItem -> Record, listing: GridListing)
    requires listing.pageNumbers >= 1 && !listing.landing.buttonVisible
    ensures GridCrawlOf(read, listing) == Crawl(ReadPage(read, listing.landing), 1, Aborted)
  {
    GridStops(read, listing.Pages(), 0, listing.pageNumbers);
  }

  // ---------------------------------------------------------------------------------------------
  // Properties of the gate

  /** A card without a title is read with reference `"0"` and never posted. */
  lemma UntitledNeverPosted(item: GridItem, all: seq<Record>)
    requires item.title.None?
    ensures ReadItem(item).reference == Missing
    ensures ReadItem(item) !in Delivery.Posted(Delivery.ReferenceAndPrice, all)
  {
  }

  /** The category is not checked: a card with known reference and price is posted whatever its category. */
  lemma CategoryNotGated(item: GridItem, all: seq<Record>)
    requires ReadItem(item).reference != Missing && ReadItem(item).price != Missing
    requires ReadItem(item) in all
    ensures ReadItem(item) in Delivery.Posted(Delivery.ReferenceAndPrice, all)
  {
    Delivery.PostedCounts(Delivery.ReferenceAndPrice, all, ReadItem(item));
  }
}
