/**
 * The Challenger scraper that bounds its pagination by the page count (`bot3.js`): each listing
 * page's product cards are followed to their detail pages, every detail page gives a record with
 * no gate, and the pager button is looked up on whatever page the browser shows last. The
 * traversal of a category ends when the page counter passes the number of `.page-number`
 * elements, when no button is found, or when advancing fails.
 */
module BoundedPager {
  import opened Options
  import opened Fields
  import ChallengerMenu
  import Challenger
  import Delivery
  import Seqs

  /** The fallback of the SKU code and product name in this scraper. */
  const Unavailable := "No disponible"

  /** The detail-page extraction of this scraper: `"No disponible"` for names, `"0"` for the price. */
  function ExtractUnavailable(d: RawDetail): Record {
    ExtractDetail(d, Unavailable)
  }

  /**
   * One product card of the grid: the `href` of its content link (`None` without the link or the
   * attribute), what its detail page shows, and whether the pager button is found while the
   * browser still shows that detail page.
   */
  datatype Card = Card(href: Option<string>, detail: RawDetail, detailHasButton: bool)

  /**
   * One listing page: its cards, whether the pager button is found on the listing itself, and
   * whether clicking it, the navigation and the grid wait all succeed.
   */
  datatype ListPage = ListPage(cards: seq<Card>, hasButton: bool, advanceOk: bool)

  /** A category: the `.page-number` count of its landing page, the landing page and the pages after it. */
  datatype Category = Category(pageNumbers: nat, landing: ListPage, following: seq<ListPage>) {
    function Pages(): seq<ListPage> {
      [landing] + following
    }
  }

  /** `getAttribute("href") || null` kept by the `!== null` filter: present and non-empty. */
  predicate HasHref(c: Card) {
    c.href.Some? && c.href.value != []
  }

  /** The records of one listing page: one per card with a link, in card order, ungated. */
  function Visit(extract: RawDetail -> Record, cards: seq<Card>): (records: seq<Record>)
    ensures |records| <= |cards|
  {
    if cards == [] then []
    else
      var last := cards[|cards| - 1];
      Visit(extract, cards[..|cards| - 1]) + if HasHref(last) then [extract(last.detail)] else []
  }

  /**
   * Whether the pager button is found after visiting `cards`: on the last detail page visited,
   * or on the listing (`start`) when no card had a link.
   */
  function ButtonAfter(start: bool, cards: seq<Card>): bool {
    if cards == [] then start
    else
      var last := cards[|cards| - 1];
      if HasHref(last) then last.detailHasButton else ButtonAfter(start, cards[..|cards| - 1])
  }

  function ButtonShown(p: ListPage): bool {
    ButtonAfter(p.hasButton, p.cards)
  }

  /** Why a category's traversal ended. */
  datatype Stop =
    | PageLimit      // the page counter passed the `.page-number` count
    | NoButton       // no pager button on the page the browser shows
    | AdvanceFailed  // the click, the navigation or the grid wait threw
    | EndOfInput     // the model's list of pages is exhausted

  datatype Crawl = Crawl(records: seq<Record>, visited: nat, why: Stop)

  /** The traversal from page `i` (page counter `i + 1`) of a category counting `next` pages. */
  function BoundedFrom(extract: RawDetail -> Record, pages: seq<ListPage>, i: nat, next: nat): Crawl
    requires i <= |pages|
    decreases |pages| - i
  {
    if next < i + 1 then Crawl([], 0, PageLimit)
    else if i == |pages| then Crawl([], 0, EndOfInput)
    else
      var here := Visit(extract, pages[i].cards);
      if !ButtonShown(pages[i]) then Crawl(here, 1, NoButton)
      else if !pages[i].advanceOk then Crawl(here, 1, AdvanceFailed)
      else
        var rest := BoundedFrom(extract, pages, i + 1, next);
        Crawl(here + rest.records, rest.visited + 1, rest.why)
  }

  function CrawlCategoryOf(extract: RawDetail -> Record, category: Category): Crawl {
    BoundedFrom(extract, category.Pages(), 0, category.pageNumbers)
  }

  /** The visits of consecutive pages, concatenated in page order. */
  function Visits(extract: RawDetail -> Record, pages: seq<ListPage>): seq<Record> {
    if pages == [] then [] else Visit(extract, pages[0].cards) + Visits(extract, pages[1..])
  }

  // ---------------------------------------------------------------------------------------------
  // One step of the traversal

  lemma BoundedOver(extract: RawDetail -> Record, pages: seq<ListPage>, i: nat, next: nat)
    requires i <= |pages| && next < i + 1
    ensures BoundedFrom(extract, pages, i, next) == Crawl([], 0, PageLimit)
  {
  }

  lemma BoundedRunsOut(extract: RawDetail -> Record, pages: seq<ListPage>, i: nat, next: nat)
    requires i == |pages| && i + 1 <= next
    ensures BoundedFrom(extract, pages, i, next) == Crawl([], 0, EndOfInput)
  {
  }

  lemma BoundedStops(extract: RawDetail -> Record, pages: seq<ListPage>, i: nat, next: nat)
    requires i < |pages| && i + 1 <= next
    requires !ButtonShown(pages[i]) || !pages[i].advanceOk
    ensures BoundedFrom(extract, pages, i, next) ==
      Crawl(Visit(extract, pages[i].cards), 1, if !ButtonShown(pages[i]) then NoButton else AdvanceFailed)
  {
  }

  lemma BoundedAdvances(extract: RawDetail -> Record, pages: seq<ListPage>, i: nat, next: nat)
    requires i < |pages| && i + 1 <= next
    requires ButtonShown(pages[i]) && pages[i].advanceOk
    ensures BoundedFrom(extract, pages, i, next).records
      == Visit(extract, pages[i].cards) + BoundedFrom(extract, pages, i + 1, next).records
    ensures BoundedFrom(extract, pages, i, next).visited == BoundedFrom(extract, pages, i + 1, next).visited + 1
    ensures BoundedFrom(extract, pages, i, next).why == BoundedFrom(extract, pages, i + 1, next).why
  {
  }

  /** Across one advance, what was collected before plus what remains stays the same. */
  lemma BoundedAdvancesAfter(extract: RawDetail -> Record, pages: seq<ListPage>, i: nat, next: nat, done: seq<Record>)
    requires i < |pages| && i + 1 <= next
    requires ButtonShown(pages[i]) && pages[i].advanceOk
    ensures done + BoundedFrom(extract, pages, i, next).records
      == (done + Visit(extract, pages[i].cards)) + BoundedFrom(extract, pages, i + 1, next).records
  {
    BoundedAdvances(extract, pages, i, next);
  }

  // ---------------------------------------------------------------------------------------------
  // The loops

  /**
   * The loop over one listing page's product URLs: every linked detail page is visited and its
   * record appended; `buttonFound` says whether the pager button is then found.
   */
  method VisitPage(extract: RawDetail -> Record, p: ListPage, collected: seq<Record>)
    returns (updated: seq<Record>, buttonFound: bool)
    ensures updated == collected + Visit(extract, p.cards)
    ensures buttonFound == ButtonShown(p)
  {
    updated := collected;
    var onScreenHasButton := p.hasButton;
    for j := 0 to |p.cards|
      invariant updated == collected + Visit(extract, p.cards[..j])
      invariant onScreenHasButton == ButtonAfter(p.hasButton, p.cards[..j])
    {
      assert p.cards[..j + 1][..j] == p.cards[..j];
      var card := p.cards[j];
      if HasHref(card) {
        updated := updated + [extract(card.detail)];
        onScreenHasButton := card.detailHasButton;
      }
    }
    assert p.cards[..|p.cards|] == p.cards;
    buttonFound := onScreenHasButton;
  }

  /** The `while (pageNumber <= next)` loop of one category. */
  method CrawlCategory(extract: RawDetail -> Record, category: Category, collected: seq<Record>)
    returns (updated: seq<Record>, visited: nat, why: Stop)
    ensures updated == collected + CrawlCategoryOf(extract, category).records
    ensures visited == CrawlCategoryOf(extract, category).visited
    ensures why == CrawlCategoryOf(extract, category).why
  {
    var pages := category.Pages();
    var next := category.pageNumbers;
    ghost var total := CrawlCategoryOf(extract, category);
    var pageNumber := 1;
    var i := 0;
    updated := collected;
    visited := 0;
    why := PageLimit;
    while pageNumber <= next
      invariant i <= |pages| && pageNumber == i + 1
      invariant updated + BoundedFrom(extract, pages, i, next).records == collected + total.records
      invariant visited + BoundedFrom(extract, pages, i, next).visited == total.visited
      invariant BoundedFrom(extract, pages, i, next).why == total.why
      invariant why == PageLimit
      decreases next - pageNumber
    {
      if i == |pages| {
        BoundedRunsOut(extract, pages, i, next);
        why := EndOfInput;
        break;
      }
      var page := pages[i];
      ghost var before := updated;
      var buttonFound;
      updated, buttonFound := VisitPage(extract, page, updated);
      visited := visited + 1;
      if !buttonFound {
        BoundedStops(extract, pages, i, next);
        why := NoButton;
        break;
      }
      if !page.advanceOk {
        BoundedStops(extract, pages, i, next);
        why := AdvanceFailed;
        break;
      }
      BoundedAdvances(extract, pages, i, next);
      BoundedAdvancesAfter(extract, pages, i, next, before);
      pageNumber := pageNumber + 1;
      i := i + 1;
    }
    if next < i + 1 {
      BoundedOver(extract, pages, i, next);
    }
  }

  // ---------------------------------------------------------------------------------------------
  // Properties of one listing page

  /**
   * A page's records are the linked cards' detail records, in card order: as many as there are
   * cards with a link, the `k`-th read from the `k`-th linked card.
   */
  lemma {:induction false} VisitIsLinkedDetails(extract: RawDetail -> Record, cards: seq<Card>)
    ensures |Visit(extract, cards)| == |Seqs.Filter(HasHref, cards)|
    ensures forall k :: 0 <= k < |Visit(extract, cards)| ==>
      Visit(extract, cards)[k] == extract(Seqs.Filter(HasHref, cards)[k].detail)
  {
    if cards != [] {
      var init := cards[..|cards| - 1];
      VisitIsLinkedDetails(extract, init);
    }
  }

  /** Every linked card's record is collected, whatever it holds: there is no gate. */
  lemma VisitKeepsEveryLinked(extract: RawDetail -> Record, cards: seq<Card>, c: Card)
    requires c in cards && HasHref(c)
    ensures extract(c.detail) in Visit(extract, cards)
  {
    var linked := Seqs.Filter(HasHref, cards);
    VisitIsLinkedDetails(extract, cards);
    var k :| 0 <= k < |linked| && linked[k] == c;
    assert Visit(extract, cards)[k] == extract(c.detail);
  }

  /** Nothing else is collected: every record comes from a card with a link. */
  lemma VisitOnlyLinked(extract: RawDetail -> Record, cards: seq<Card>, r: Record)
    requires r in Visit(extract, cards)
    ensures exists c :: c in cards && HasHref(c) && r == extract(c.detail)
  {
    var linked := Seqs.Filter(HasHref, cards);
    VisitIsLinkedDetails(extract, cards);
    var k :| 0 <= k < |Visit(extract, cards)| && Visit(extract, cards)[k] == r;
    assert linked[k] in linked;
  }

  /** When no card has a link, the button is looked up on the listing page itself. */
  lemma {:induction false} ButtonOnListing(start: bool, cards: seq<Card>)
    requires forall c :: c in cards ==> !HasHref(c)
    ensures ButtonAfter(start, cards) == start
  {
    if cards != [] {
      var init := cards[..|cards| - 1];
      assert forall c :: c in init ==> c in cards;
      ButtonOnListing(start, init);
    }
  }

  /** Otherwise it is looked up on the detail page of the last card with a link. */
  lemma {:induction false} ButtonOnLastDetail(start: bool, cards: seq<Card>, k: nat)
    requires k < |cards| && HasHref(cards[k])
    requires forall j :: k < j < |cards| ==> !HasHref(cards[j])
    ensures ButtonAfter(start, cards) == cards[k].detailHasButton
    decreases |cards|
  {
    if k + 1 < |cards| {
      var init := cards[..|cards| - 1];
      assert init[k] == cards[k];
      ButtonOnLastDetail(start, init, k);
    }
  }

  // ---------------------------------------------------------------------------------------------
  // Properties of a category's traversal

  /**
   * The traversal never reads more pages than the count allows nor more than exist; it stops on
   * the limit exactly after reading up to the count, and runs out only after reading every page.
   */
  lemma {:induction false} BoundedLimits(extract: RawDetail -> Record, pages: seq<ListPage>, i: nat, next: nat)
    requires i <= |pages| && i <= next
    ensures i + BoundedFrom(extract, pages, i, next).visited <= next
    ensures i + BoundedFrom(extract, pages, i, next).visited <= |pages|
    ensures BoundedFrom(extract, pages, i, next).why == PageLimit ==> i + BoundedFrom(extract, pages, i, next).visited == next
    ensures BoundedFrom(extract, pages, i, next).why == EndOfInput ==> i + BoundedFrom(extract, pages, i, next).visited == |pages|
    decreases |pages| - i
  {
    if next < i + 1 {
      BoundedOver(extract, pages, i, next);
    } else if i == |pages| {
      BoundedRunsOut(extract, pages, i, next);
    } else if !ButtonShown(pages[i]) || !pages[i].advanceOk {
      BoundedStops(extract, pages, i, next);
    } else {
      BoundedLimits(extract, pages, i + 1, next);
      BoundedAdvances(extract, pages, i, next);
    }
  }

  /** A category whose landing page counts no page number is not read at all. */
  lemma NoPageNumbersNothingRead(extract: RawDetail -> Record, category: Category)
    requires category.pageNumbers == 0
    ensures CrawlCategoryOf(extract, category) == Crawl([], 0, PageLimit)
  {
    BoundedOver(extract, category.Pages(), 0, 0);
  }

  /** The records are the visited pages' records, concatenated in page order. */
  predicate RecordsArePageVisits(extract: RawDetail -> Record, pages: seq<ListPage>, i: nat, next: nat)
    requires i <= |pages|
  {
    var c := BoundedFrom(extract, pages, i, next);
    i + c.visited <= |pages| && c.records == Visits(extract, pages[i..i + c.visited])
  }

  lemma BoundedRecordsStep(extract: RawDetail -> Record, pages: seq<ListPage>, i: nat, next: nat)
    requires i < |pages| && i + 1 <= next
    requires ButtonShown(pages[i]) && pages[i].advanceOk
    requires RecordsArePageVisits(extract, pages, i + 1, next)
    ensures RecordsArePageVisits(extract, pages, i, next)
  {
    var rest := BoundedFrom(extract, pages, i + 1, next);
    BoundedAdvances(extract, pages, i, next);
    var n := i + 1 + rest.visited;
    assert pages[i..n][1..] == pages[i + 1..n];
  }

  lemma {:induction false} BoundedRecords(extract: RawDetail -> Record, pages: seq<ListPage>, i: nat, next: nat)
    requires i <= |pages|
    ensures RecordsArePageVisits(extract, pages, i, next)
    decreases |pages| - i
  {
    if next < i + 1 {
      BoundedOver(extract, pages, i, next);
    } else if i == |pages| {
      BoundedRunsOut(extract, pages, i, next);
    } else if !ButtonShown(pages[i]) || !pages[i].advanceOk {
      BoundedStops(extract, pages, i, next);
      assert pages[i..i + 1] == [pages[i]];
      assert Visits(extract, [pages[i]]) == Visit(extract, pages[i].cards) + Visits(extract, []);
    } else {
      BoundedRecords(extract, pages, i + 1, next);
      BoundedRecordsStep(extract, pages, i, next);
    }
  }

  /** Every page shows the pager button and advances without error. */
  predicate AlwaysAdvances(pages: seq<ListPage>) {
    forall k :: 0 <= k < |pages| ==> ButtonShown(pages[k]) && pages[k].advanceOk
  }

  /**
   * The count bounds the traversal: when every advance succeeds and enough pages exist, exactly
   * the counted pages are read and the traversal stops on the limit.
   */
  lemma {:induction false} CountBoundsTraversal(extract: RawDetail -> Record, pages: seq<ListPage>, i: nat, next: nat)
    requires AlwaysAdvances(pages) && i <= next <= |pages|
    ensures BoundedFrom(extract, pages, i, next).visited == next - i
    ensures BoundedFrom(extract, pages, i, next).why == PageLimit
    decreases |pages| - i
  {
    if next < i + 1 {
      BoundedOver(extract, pages, i, next);
    } else {
      BoundedAdvances(extract, pages, i, next);
      CountBoundsTraversal(extract, pages, i + 1, next);
    }
  }

  /**
   * A linked product without a price element is collected with price `"0"` but never posted:
   * this scraper defers the price check to delivery.
   */
  lemma UnpricedCollectedNotPosted(cards: seq<Card>, c: Card)
    requires c in cards && HasHref(c) && c.detail.price.None?
    ensures ExtractUnavailable(c.detail) in Visit(ExtractUnavailable, cards)
    ensures ExtractUnavailable(c.detail).price == Missing
    ensures ExtractUnavailable(c.detail) !in Delivery.Posted(Delivery.PriceOnly, Visit(ExtractUnavailable, cards))
  {
    VisitKeepsEveryLinked(ExtractUnavailable, cards, c);
    MissingPriceRejected(c.detail, Unavailable);
    Delivery.MissingPriceNeverPosted(Delivery.PriceOnly, Visit(ExtractUnavailable, cards), ExtractUnavailable(c.detail));
  }

  /**
   * A priced product whose SKU code and name are missing is still posted: its names fall back to
   * `"No disponible"`, which no gate checks.
   */
  lemma UnnamedButPricedPosted(d: RawDetail, all: seq<Record>)
    requires d.sku.None? && d.title.None?
    requires PriceField(d.price) != Missing
    requires ExtractUnavailable(d) in all
    ensures ExtractUnavailable(d).category == Unavailable && ExtractUnavailable(d).reference == Unavailable
    ensures ExtractUnavailable(d) in Delivery.Posted(Delivery.PriceOnly, all)
  {
    Delivery.PostedCounts(Delivery.PriceOnly, all, ExtractUnavailable(d));
  }

  // ---------------------------------------------------------------------------------------------
  // A whole run

  /** The traversal of one category from its landing page reached at `base/category`. */
  function Traversal(extract: RawDetail -> Record, base: string, site: string -> Category): string -> seq<Record> {
    (category: string) => CrawlCategoryOf(extract, site(Challenger.CategoryUrl(base, category))).records
  }

  /** The records collected over a list of categories, each traversed in turn. */
  function Collected(extract: RawDetail -> Record, base: string, categories: seq<string>, site: string -> Category): seq<Record> {
    Seqs.FlatMap(Traversal(extract, base, site), categories)
  }

  /**
   * What the first `i` categories yield is kept whatever the later categories do: it is a prefix of
   * the whole run's records.
   */
  lemma CollectedPrefix(extract: RawDetail -> Record, base: string, categories: seq<string>, i: nat, site: string -> Category)
    requires i <= |categories|
    ensures Collected(extract, base, categories[..i], site) <= Collected(extract, base, categories, site)
  {
    assert categories == categories[..i] + categories[i..];
    Seqs.FlatMapAppend(Traversal(extract, base, site), categories[..i], categories[i..]);
  }

  /** The per-category loop: every category is visited, in order, and its traversal appended. */
  method CollectAll(extract: RawDetail -> Record, base: string, categories: seq<string>, site: string -> Category)
    returns (visitedUrls: seq<string>, allProducts: seq<Record>)
    ensures |visitedUrls| == |categories|
    ensures forall i :: 0 <= i < |categories| ==> visitedUrls[i] == Challenger.CategoryUrl(base, categories[i])
    ensures allProducts == Collected(extract, base, categories, site)
  {
    visitedUrls := [];
    allProducts := [];
    for i := 0 to |categories|
      invariant |visitedUrls| == i
      invariant forall j :: 0 <= j < i ==> visitedUrls[j] == Challenger.CategoryUrl(base, categories[j])
      invariant allProducts == Collected(extract, base, categories[..i], site)
    {
      var url := Challenger.CategoryUrl(base, categories[i]);
      visitedUrls := visitedUrls + [url];
      Seqs.FlatMapSnoc(Traversal(extract, base, site), categories, i);
      var visited, why;
      allProducts, visited, why := CrawlCategory(extract, site(url), allProducts);
    }
    assert categories[..|categories|] == categories;
  }

  /** The script: trimmed menu entries, collection under the home page, then the price-gated delivery. */
  method Run(menu: seq<string>, site: string -> Category) returns (result: Challenger.RunResult)
    ensures result.visitedUrls == Seqs.Map((c: string) => Challenger.CategoryUrl(Challenger.ChallengerHome, c), ChallengerMenu.PlainMenu(menu))
    ensures result.allProducts == Collected(ExtractUnavailable, Challenger.ChallengerHome, ChallengerMenu.PlainMenu(menu), site)
    ensures result.sent == Seqs.Filter(Delivery.PriceKnown, result.allProducts)
    ensures result.cont == |result.sent|
  {
    var categories := ChallengerMenu.PlainMenu(menu);
    var visitedUrls, allProducts := CollectAll(ExtractUnavailable, Challenger.ChallengerHome, categories, site);
    var sent, cont := Delivery.Deliver(Delivery.PriceOnly, allProducts);
    Delivery.PostedIsFilter(Delivery.PriceOnly, allProducts);
    result := Challenger.RunResult(visitedUrls, allProducts, sent, cont);
  }
}
